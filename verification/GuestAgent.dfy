/** The timer-driven guest agent of core/modules/run-virt/winres/src/winres.c and
    the password daemon it talks to: mount ticks, script ticks, UDP replies and
    the wipe share one set of flags and one password. */
module GuestAgent {
  import opened Bits
  import opened PasswordCodec
  import Quote = ShellQuote

  type Datagram = Bytes
  type Wide = Quote.Wide

  // ----- State -----

  /** spass: NULL, a string, or a string that was zeroed. */
  datatype Secret = Missing | Known(bytes: Bytes) | Wiped

  datatype Drive = Drive(printer: bool, success: bool)

  /** A call of mountNetworkShare for one drive, and the password it could use. */
  datatype Try = Try(drive: nat, ok: bool, pass: Secret)

  datatype Launch = Launch(params: Wide, pass: Secret)

  /** What readShareFile and the ini file fix; `widen` is the UTF-8 conversion. */
  datatype Config = Config(shareOk: bool, key1: Bytes, key2: Bytes, user: Bytes, widen: Bytes -> Option<Wide>)

  datatype Guest = Guest(
    mountDone: bool, scriptDone: bool, deleted: bool, hung: bool,
    spass: Secret, sockOpen: bool,
    attempts: nat, entered: nat, fails: nat, work: Work,
    outbox: set<Datagram>, launches: seq<Launch>)

  /** The drives, the calls made to connect them, and the rounds of calls so far. */
  datatype Work = Work(drives: seq<Drive>, tries: seq<Try>, rounds: nat)

  datatype SendResult = NoWindow | NoWinsock | NoSocket | NotSent | Sent

  /** `mounts`: the drives one of the two mountNetworkShare calls would connect. */
  datatype Message =
    | MountTimer(send: SendResult, elapsed: nat, mounts: set<nat>)
    | ScriptTimer
    | SockData(datagram: Datagram, mounts: set<nat>)
    | OtherMessage

  // ----- The callbacks -----

  predicate Attempted(d: Drive, printers: bool) {
    !d.success && (printers || !d.printer)
  }

  function AfterTry(d: Drive, i: nat, printers: bool, mounts: set<nat>): Drive {
    if Attempted(d, printers) && i in mounts then d.(success := true) else d
  }

  function Mounted(drives: seq<Drive>, printers: bool, mounts: set<nat>): (r: seq<Drive>)
    ensures |r| == |drives| && forall i :: 0 <= i < |drives| ==> r[i] == AfterTry(drives[i], i, printers, mounts)
  {
    seq(|drives|, i requires 0 <= i < |drives| => AfterTry(drives[i], i, printers, mounts))
  }

  function TriesUpTo(drives: seq<Drive>, n: nat, printers: bool, mounts: set<nat>, pass: Secret): seq<Try>
    requires n <= |drives|
  {
    if n == 0 then []
    else TriesUpTo(drives, n - 1, printers, mounts, pass)
         + if Attempted(drives[n - 1], printers) then [Try(n - 1, n - 1 in mounts, pass)] else []
  }

  predicate AllMounted(drives: seq<Drive>) {
    forall i :: 0 <= i < |drives| ==> drives[i].success
  }

  /** The loop of mountNetworkShares; printers join from the fifth round on. */
  function MountRound(work: Work, mounts: set<nat>, pass: Secret): Work {
    var n, printers := |work.drives|, work.rounds + 1 > 4;
    Work(Mounted(work.drives, printers, mounts), work.tries + TriesUpTo(work.drives, n, printers, mounts, pass), work.rounds + 1)
  }

  /** mountNetworkShares. */
  function MountShares(c: Config, g: Guest, mounts: set<nat>): Guest {
    if !c.shareOk || g.spass.Missing? then g else g.(work := MountRound(g.work, mounts, g.spass))
  }

  /** queryPasswordDaemon without a password yet: it never reports success. */
  function Query(c: Config, g: Guest, send: SendResult): Guest {
    match send
    case NoWindow | NoWinsock | NoSocket => g
    case NotSent => g.(sockOpen := true)
    case Sent => g.(sockOpen := true, outbox := g.outbox + {c.key1})
  }

  function RetryUnless(g: Guest, limit: nat): Guest {
    g.(attempts := g.attempts + 1, mountDone := g.attempts + 1 >= limit)
  }

  /** A mount tick that still has to ask for the password. */
  function QueryTick(c: Config, g: Guest, send: SendResult): Guest {
    RetryUnless(Query(c, g.(entered := g.entered + 1), send), 10)
  }

  /** A mount tick that has a password. */
  function SharesTick(c: Config, g: Guest, elapsed: nat, mounts: set<nat>): Guest {
    CloseShares(MountShares(c, g.(entered := g.entered + 1), mounts), elapsed)
  }

  function CloseShares(g: Guest, elapsed: nat): Guest {
    if !AllMounted(g.work.drives) && elapsed < 30000 then RetryUnless(g, 15) else g.(mountDone := true)
  }

  /** Ask for the password or, with one, mount; until 10 or 15 attempts or 30 s are used up. */
  function Attempt(c: Config, g: Guest, send: SendResult, elapsed: nat, mounts: set<nat>): Guest {
    if g.spass.Missing? then RetryUnless(Query(c, g, send), 10) else CloseShares(MountShares(c, g, mounts), elapsed)
  }

  /** setupNetworkDrives. */
  function MountTick(c: Config, g: Guest, send: SendResult, elapsed: nat, mounts: set<nat>): Guest {
    if g.mountDone then g
    else if !c.shareOk then g.(entered := g.entered + 1, mountDone := true)
    else Attempt(c, g.(entered := g.entered + 1), send, elapsed, mounts)
  }

  function Fail(g: Guest): Guest {
    g.(fails := g.fails + 1, scriptDone := g.fails + 1 > 12)
  }

  function SecretBytes(s: Secret): Bytes {
    if s.Known? then s.bytes else []
  }

  /** launchRunscript; `hung` when escapeShellArg does not come back. */
  function ScriptTick(c: Config, g: Guest): Guest {
    if g.scriptDone then g
    else if g.spass.Missing? then Fail(g)
    else
      var user, pass := c.widen(c.user), c.widen(SecretBytes(g.spass));
      if user.None? || pass.None? then Fail(g)
      else if !Quote.CallsReturn(user.value, pass.value) then g.(hung := true)
      else g.(scriptDone := true, launches := g.launches + [Launch(Quote.Params(user.value, pass.value), g.spass)])
  }

  /** udpReceived; recv fails once the socket is closed. */
  function UdpReceived(c: Config, g: Guest, d: Datagram, mounts: set<nat>): Guest
    requires |c.key2| == KEYLEN
  {
    if !g.sockOpen then g
    else match GuestReads(d, c.key2)
      case None => g
      case Some(pass) => MountShares(c, g.(spass := Known(pass), sockOpen := false), mounts)
  }

  /** The check of the message loop after every message. */
  function WipeCheck(g: Guest): Guest {
    if !g.deleted && g.mountDone && g.scriptDone && !g.spass.Missing?
    then g.(spass := Wiped, deleted := true)
    else g
  }

  function Handle(c: Config, g: Guest, m: Message): Guest
    requires |c.key2| == KEYLEN
  {
    match m
    case MountTimer(send, elapsed, mounts) => MountTick(c, g, send, elapsed, mounts)
    case ScriptTimer => ScriptTick(c, g)
    case SockData(d, mounts) => UdpReceived(c, g, d, mounts)
    case OtherMessage => g
  }

  /** One round of the message loop. */
  function Dispatch(c: Config, g: Guest, m: Message): Guest
    requires |c.key2| == KEYLEN
  {
    if g.hung then g
    else
      var h := Handle(c, g, m);
      if h.hung then h else WipeCheck(h)
  }

  // ----- Guest, daemon and network -----

  datatype Daemon = Daemon(key1: Bytes, key2: Bytes, password: Bytes)

  /** `replies`: everything the daemon ever sent; each may arrive never, late or often. */
  datatype World = World(guest: Guest, replies: set<Datagram>)

  datatype Event = GuestGets(message: Message) | DaemonGets(request: Datagram)

  /** The daemon's recvfrom keeps the first KEYLEN bytes of a datagram. */
  predicate Authentic(dm: Daemon, request: Datagram) {
    |request| >= KEYLEN && request[..KEYLEN] == dm.key1
  }

  /** The guest gets what the daemon sent; the daemon gets requests from anyone. */
  predicate Possible(w: World, ev: Event) {
    match ev
    case GuestGets(m) => m.SockData? ==> m.datagram in w.replies
    case DaemonGets(request) => true
  }

  function Step(c: Config, dm: Daemon, w: World, ev: Event): World
    requires |c.key2| == KEYLEN == |dm.key2|
  {
    if !Possible(w, ev) then w
    else match ev
      case GuestGets(m) => w.(guest := Dispatch(c, w.guest, m))
      case DaemonGets(request) =>
        if Authentic(dm, request) then w.(replies := w.replies + {Reply(dm.password, dm.key2)}) else w
  }

  function Run(c: Config, dm: Daemon, w: World, events: seq<Event>): World
    requires |c.key2| == KEYLEN == |dm.key2|
    decreases |events|
  {
    if events == [] then w
    else Step(c, dm, Run(c, dm, w, events[..|events| - 1]), events[|events| - 1])
  }

  /** The guest's keys are the daemon's, carried over as hex digits. */
  ghost predicate Paired(c: Config, dm: Daemon) {
    && |dm.key1| == KEYLEN == |dm.key2|
    && c.key1 == Unhex(Hex(dm.key1)) && c.key2 == Unhex(Hex(dm.key2))
  }

  lemma KeysSurvive(c: Config, dm: Daemon)
    requires Paired(c, dm)
    ensures c.key1 == dm.key1 && c.key2 == dm.key2
  {
    HexRoundTrip(dm.key1);
    HexRoundTrip(dm.key2);
  }

  /** WinMain up to the message loop; in demo mode the password is empty. */
  function Start(demo: bool, mountTimer: bool, scriptTimer: bool, printers: seq<bool>): World {
    World(
      Guest(!mountTimer, !scriptTimer, false, false, if demo then Known([]) else Missing, false,
            0, 0, 0, Work(seq(|printers|, i requires 0 <= i < |printers| => Drive(printers[i], false)), [], 0), {}, []),
      {})
  }

  // ----- What every run keeps -----

  function Password(dm: Daemon, demo: bool): Bytes {
    if demo then [] else dm.password
  }

  ghost predicate NeverAgain(tries: seq<Try>) {
    forall i, j :: 0 <= i < j < |tries| && tries[i].ok ==> tries[j].drive != tries[i].drive
  }

  ghost predicate TriesMatch(drives: seq<Drive>, tries: seq<Try>) {
    forall t :: t in tries && t.ok ==> t.drive < |drives| && drives[t.drive].success
  }

  /** No call for a drive follows one that connected it. */
  ghost predicate WorkOk(work: Work) {
    NeverAgain(work.tries) && TriesMatch(work.drives, work.tries)
  }

  ghost predicate TriedWith(work: Work, pass: Secret) {
    forall t :: t in work.tries ==> t.pass == pass
  }

  ghost predicate SecretOk(dm: Daemon, demo: bool, s: Secret) {
    s.Known? ==> s.bytes == Password(dm, demo) && (!demo ==> |s.bytes| <= RECVLEN - 2)
  }

  ghost predicate LaunchOk(c: Config, dm: Daemon, demo: bool, l: Launch) {
    var user, pass := c.widen(c.user), c.widen(Password(dm, demo));
    && l.pass == Known(Password(dm, demo))
    && user.Some? && pass.Some? && Quote.CallsReturn(user.value, pass.value)
    && l.params == Quote.Params(user.value, pass.value)
  }

  /** What makes launchRunscript hang: credentials that convert and do not fit. */
  ghost predicate TooLong(c: Config, pass: Bytes) {
    var user, pw := c.widen(c.user), c.widen(pass);
    user.Some? && pw.Some? && !Quote.CallsReturn(user.value, pw.value)
  }

  /** Passwords: whatever is installed, sent or used is the daemon's. */
  ghost predicate Truthful(c: Config, dm: Daemon, demo: bool, w: World)
    requires |dm.key2| == KEYLEN
  {
    var g := w.guest;
    && SecretOk(dm, demo, g.spass)
    && g.outbox <= {dm.key1}
    && w.replies <= {Reply(dm.password, dm.key2)}
    && (g.sockOpen ==> g.spass == Missing && !demo)
    && TriedWith(g.work, Known(Password(dm, demo)))
    && (forall l :: l in g.launches ==> LaunchOk(c, dm, demo, l))
    && (g.hung ==> TooLong(c, Password(dm, demo)) && (!demo ==> |dm.password| <= RECVLEN - 2))
  }

  /** Flags and counters. */
  ghost predicate Phased(g: Guest) {
    && (g.deleted <==> g.spass == Wiped)
    && (g.deleted ==> g.mountDone && g.scriptDone)
    && |g.launches| <= 1 && (g.launches != [] ==> g.scriptDone)
    && g.entered <= 15 && (!g.mountDone ==> g.entered == g.attempts < 15)
    && g.fails <= 13 && (!g.scriptDone ==> g.fails <= 12)
    && WorkOk(g.work)
  }

  ghost predicate Inv(c: Config, dm: Daemon, demo: bool, w: World)
    requires |dm.key2| == KEYLEN
  {
    Truthful(c, dm, demo, w) && Phased(w.guest)
  }

  lemma {:induction false} TriesAreFresh(drives: seq<Drive>, n: nat, printers: bool, mounts: set<nat>, pass: Secret)
    requires n <= |drives|
    ensures var ts := TriesUpTo(drives, n, printers, mounts, pass);
            && (forall t :: t in ts ==> t.pass == pass && t.drive < n && !drives[t.drive].success && (t.ok ==> t.drive in mounts && Attempted(drives[t.drive], printers)))
            && (forall i, j :: 0 <= i < j < |ts| ==> ts[i].drive != ts[j].drive)
  {
    if n > 0 {
      TriesAreFresh(drives, n - 1, printers, mounts, pass);
    }
  }

  /** A round of mounting leaves connected drives alone. */
  lemma RoundKeeps(work: Work, mounts: set<nat>, pass: Secret)
    requires WorkOk(work) && TriedWith(work, pass)
    ensures WorkOk(MountRound(work, mounts, pass)) && TriedWith(MountRound(work, mounts, pass), pass)
  {
    var n, printers := |work.drives|, work.rounds + 1 > 4;
    var ts := TriesUpTo(work.drives, n, printers, mounts, pass);
    TriesAreFresh(work.drives, n, printers, mounts, pass);
    var all := work.tries + ts;
    forall i, j | 0 <= i < j < |all| && all[i].ok
      ensures all[j].drive != all[i].drive
    {
      if i < |work.tries| <= j {
        assert work.tries[i] in work.tries && ts[j - |work.tries|] in ts;
      }
    }
  }

  lemma QueryTickKeeps(c: Config, dm: Daemon, demo: bool, w: World, send: SendResult)
    requires |dm.key2| == KEYLEN && c.key1 == dm.key1 && Inv(c, dm, demo, w)
    requires !demo && w.guest.spass == Missing && !w.guest.mountDone
    ensures Inv(c, dm, demo, w.(guest := QueryTick(c, w.guest, send)))
  {
  }

  lemma SharesTickKeeps(c: Config, dm: Daemon, demo: bool, w: World, elapsed: nat, mounts: set<nat>)
    requires |dm.key2| == KEYLEN && Inv(c, dm, demo, w)
    requires w.guest.spass != Missing && !w.guest.mountDone
    ensures Inv(c, dm, demo, w.(guest := SharesTick(c, w.guest, elapsed, mounts)))
  {
    RoundKeeps(w.guest.work, mounts, w.guest.spass);
  }

  lemma MountTickKeeps(c: Config, dm: Daemon, demo: bool, w: World, send: SendResult, elapsed: nat, mounts: set<nat>)
    requires |dm.key2| == KEYLEN && c.key1 == dm.key1 && Inv(c, dm, demo, w)
    requires demo ==> w.guest.spass != Missing
    ensures Inv(c, dm, demo, w.(guest := MountTick(c, w.guest, send, elapsed, mounts)))
  {
    var g := w.guest;
    if g.mountDone {
      assert MountTick(c, g, send, elapsed, mounts) == g;
    } else if !c.shareOk {
    } else if g.spass.Missing? {
      QueryTickKeeps(c, dm, demo, w, send);
      assert MountTick(c, g, send, elapsed, mounts) == QueryTick(c, g, send);
    } else {
      SharesTickKeeps(c, dm, demo, w, elapsed, mounts);
      assert MountTick(c, g, send, elapsed, mounts) == SharesTick(c, g, elapsed, mounts);
    }
  }

  lemma ScriptTickKeeps(c: Config, dm: Daemon, demo: bool, w: World)
    requires |dm.key2| == KEYLEN && Inv(c, dm, demo, w)
    ensures Inv(c, dm, demo, w.(guest := ScriptTick(c, w.guest)))
  {
    assert !w.guest.scriptDone ==> w.guest.launches == [];
  }

  lemma UdpReceivedKeeps(c: Config, dm: Daemon, demo: bool, w: World, d: Datagram, mounts: set<nat>)
    requires |dm.key2| == KEYLEN && c.key2 == dm.key2 && Inv(c, dm, demo, w) && d in w.replies
    ensures Inv(c, dm, demo, w.(guest := UdpReceived(c, w.guest, d, mounts)))
  {
    var g := w.guest;
    ReplyRoundTrip(dm.password, dm.key2);
    if g.sockOpen && |dm.password| <= RECVLEN - 2 {
      RoundKeeps(g.work, mounts, Known(dm.password));
    }
  }

  lemma WipeCheckKeeps(c: Config, dm: Daemon, demo: bool, w: World)
    requires |dm.key2| == KEYLEN && Inv(c, dm, demo, w)
    ensures Inv(c, dm, demo, w.(guest := WipeCheck(w.guest)))
  {
  }

  lemma StepKeeps(c: Config, dm: Daemon, demo: bool, w: World, ev: Event)
    requires Paired(c, dm) && |c.key2| == KEYLEN
    requires Inv(c, dm, demo, w) && (demo ==> w.guest.spass != Missing)
    ensures Inv(c, dm, demo, Step(c, dm, w, ev)) && (demo ==> Step(c, dm, w, ev).guest.spass != Missing)
  {
    KeysSurvive(c, dm);
    if Possible(w, ev) && ev.GuestGets? && !w.guest.hung {
      HandleKeeps(c, dm, demo, w, ev.message);
      var h := w.(guest := Handle(c, w.guest, ev.message));
      WipeCheckKeeps(c, dm, demo, h);
      assert Step(c, dm, w, ev) == if h.guest.hung then h else h.(guest := WipeCheck(h.guest));
    }
  }

  lemma HandleKeeps(c: Config, dm: Daemon, demo: bool, w: World, m: Message)
    requires |dm.key2| == KEYLEN && c.key1 == dm.key1 && c.key2 == dm.key2
    requires Inv(c, dm, demo, w) && (demo ==> w.guest.spass != Missing) && Possible(w, GuestGets(m))
    ensures Inv(c, dm, demo, w.(guest := Handle(c, w.guest, m)))
    ensures w.guest.spass != Missing ==> Handle(c, w.guest, m).spass != Missing
  {
    match m {
      case MountTimer(send, elapsed, mounts) => MountTickKeeps(c, dm, demo, w, send, elapsed, mounts);
      case ScriptTimer => ScriptTickKeeps(c, dm, demo, w);
      case SockData(d, mounts) => UdpReceivedKeeps(c, dm, demo, w, d, mounts);
      case OtherMessage =>
    }
  }

  /** Every reachable state: one password, one launch, bounded phases, no second mount. */
  lemma {:induction false} RunKeeps(c: Config, dm: Daemon, demo: bool, mountTimer: bool, scriptTimer: bool,
                                    printers: seq<bool>, events: seq<Event>)
    requires Paired(c, dm) && |c.key2| == KEYLEN
    ensures var w := Run(c, dm, Start(demo, mountTimer, scriptTimer, printers), events);
            Inv(c, dm, demo, w) && (demo ==> w.guest.spass != Missing)
    decreases |events|
  {
    if events != [] {
      RunKeeps(c, dm, demo, mountTimer, scriptTimer, printers, events[..|events| - 1]);
      StepKeeps(c, dm, demo, Run(c, dm, Start(demo, mountTimer, scriptTimer, printers), events[..|events| - 1]), events[|events| - 1]);
    }
  }

  /** A launched command line splits into exactly the user and the daemon's password
      if and only if both can be read from the parameters. */
  lemma LaunchedCommandLine(c: Config, dm: Daemon, demo: bool, mountTimer: bool, scriptTimer: bool,
                            printers: seq<bool>, events: seq<Event>, l: Launch)
    requires Paired(c, dm) && |c.key2| == KEYLEN
    requires l in Run(c, dm, Start(demo, mountTimer, scriptTimer, printers), events).guest.launches
    ensures var user, pass := c.widen(c.user), c.widen(Password(dm, demo));
            && user.Some? && pass.Some?
            && (Quote.Arguments(l.params) == [user.value, pass.value] <==> Quote.Readable(user.value, pass.value))
  {
    RunKeeps(c, dm, demo, mountTimer, scriptTimer, printers, events);
    Quote.ParamsRoundTrip(c.widen(c.user).value, c.widen(Password(dm, demo)).value);
  }

  // ----- When the agent hangs -----

  /** Request, answer, delivery, script tick. */
  function HangEvents(dm: Daemon): seq<Event>
    requires |dm.key2| == KEYLEN
  {
    [GuestGets(MountTimer(Sent, 0, {})), DaemonGets(dm.key1),
     GuestGets(SockData(Reply(dm.password, dm.key2), {})), GuestGets(ScriptTimer)]
  }

  lemma RunSnoc(c: Config, dm: Daemon, w: World, events: seq<Event>, ev: Event)
    requires |c.key2| == KEYLEN == |dm.key2|
    ensures Run(c, dm, w, events + [ev]) == Step(c, dm, Run(c, dm, w, events), ev)
  {
    assert (events + [ev])[..|events|] == events;
  }

  /** The first three events hand the password to the guest. */
  lemma PasswordArrives(c: Config, dm: Daemon, printers: seq<bool>)
    requires Paired(c, dm) && |c.key2| == KEYLEN && c.shareOk && |dm.password| <= RECVLEN - 2
    ensures var g := Run(c, dm, Start(false, true, true, printers), HangEvents(dm)[..3]).guest;
            g.spass == Known(dm.password) && !g.scriptDone && !g.hung
  {
    KeysSurvive(c, dm);
    ReplyRoundTrip(dm.password, dm.key2);
    var w, es := Start(false, true, true, printers), HangEvents(dm);
    var none: seq<Event> := [];
    assert none + [es[0]] == es[..1] && es[..1] + [es[1]] == es[..2] && es[..2] + [es[2]] == es[..3];
    RunSnoc(c, dm, w, none, es[0]);
    RunSnoc(c, dm, w, es[..1], es[1]);
    RunSnoc(c, dm, w, es[..2], es[2]);
    AskSends(c, dm, w);
    AnswerArrives(c, dm, Run(c, dm, w, es[..2]));
  }

  lemma AskSends(c: Config, dm: Daemon, w: World)
    requires |c.key2| == KEYLEN == |dm.key2| == |dm.key1| && c.key1 == dm.key1 && c.shareOk
    requires var g := w.guest; !g.mountDone && !g.scriptDone && !g.hung && g.spass == Missing && g.attempts == 0
    ensures var w1 := Step(c, dm, w, GuestGets(MountTimer(Sent, 0, {})));
            var w2 := Step(c, dm, w1, DaemonGets(dm.key1));
            && Reply(dm.password, dm.key2) in w2.replies
            && w2.guest.sockOpen && !w2.guest.mountDone && !w2.guest.scriptDone && !w2.guest.hung
  {
    var w1 := Step(c, dm, w, GuestGets(MountTimer(Sent, 0, {})));
    assert w1.guest == QueryTick(c, w.guest, Sent);
    assert dm.key1[..KEYLEN] == dm.key1;
  }

  lemma AnswerArrives(c: Config, dm: Daemon, w: World)
    requires |c.key2| == KEYLEN && c.key2 == dm.key2 && |dm.password| <= RECVLEN - 2
    requires Reply(dm.password, dm.key2) in w.replies
    requires w.guest.sockOpen && !w.guest.mountDone && !w.guest.scriptDone && !w.guest.hung
    ensures var g := Step(c, dm, w, GuestGets(SockData(Reply(dm.password, dm.key2), {}))).guest;
            g.spass == Known(dm.password) && !g.scriptDone && !g.hung
  {
    ReplyRoundTrip(dm.password, dm.key2);
  }

  /** Some run hangs exactly when the password reaches the guest at all, both
      credentials convert, and escapeShellArg does not return on them. */
  lemma HangsWhen(c: Config, dm: Daemon, printers: seq<bool>)
    requires Paired(c, dm) && |c.key2| == KEYLEN && c.shareOk
    ensures (exists events :: Run(c, dm, Start(false, true, true, printers), events).guest.hung) <==>
            |dm.password| <= RECVLEN - 2 && TooLong(c, dm.password)
  {
    var w := Start(false, true, true, printers);
    if |dm.password| <= RECVLEN - 2 && TooLong(c, dm.password) {
      PasswordArrives(c, dm, printers);
      var es := HangEvents(dm);
      assert es[..3] + [es[3]] == es;
      RunSnoc(c, dm, w, es[..3], es[3]);
      assert Run(c, dm, w, es).guest.hung;
    }
    forall events | Run(c, dm, w, events).guest.hung
      ensures |dm.password| <= RECVLEN - 2 && TooLong(c, dm.password)
    {
      RunKeeps(c, dm, false, true, true, printers, events);
    }
  }

  function Letters(bytes: Bytes): Option<Wide> {
    Some(seq(|bytes|, i requires 0 <= i < |bytes| => bytes[i] as char))
  }

  /** A password the guest accepts, of 198 plain letters, hangs it for a one-letter user. */
  lemma LongPasswordHangs(dm: Daemon, printers: seq<bool>)
    requires |dm.key1| == KEYLEN == |dm.key2| && dm.password == seq(RECVLEN - 2, _ => 'x' as int)
    ensures var c := Config(true, dm.key1, dm.key2, ['u' as int], Letters);
            exists events :: Run(c, dm, Start(false, true, true, printers), events).guest.hung
  {
    var c := Config(true, dm.key1, dm.key2, ['u' as int], Letters);
    HexRoundTrip(dm.key1);
    HexRoundTrip(dm.key2);
    var user, pass := Letters(c.user).value, Letters(dm.password).value;
    assert user == ['u'];
    Quote.OneLetterUser('u');
    Quote.LongPasswordSpins(user, pass);
    HangsWhen(c, dm, printers);
  }

  /** Drives once connected stay connected, and calls are only added. */
  ghost predicate WorkLater(a: Work, b: Work) {
    && a.tries <= b.tries && |a.drives| == |b.drives|
    && forall i :: 0 <= i < |a.drives| && a.drives[i].success ==> b.drives[i].success
  }

  /** Flags stay set, and nothing is launched once the script is done or the password wiped. */
  ghost predicate FlagsLater(g: Guest, h: Guest) {
    && (g.mountDone ==> h.mountDone) && (g.scriptDone ==> h.scriptDone) && (g.deleted ==> h.deleted)
    && g.launches <= h.launches && (h.launches != g.launches ==> !g.deleted && !g.scriptDone)
    && (h.deleted && !g.deleted ==> h.mountDone && h.scriptDone)
  }

  /** What no step ever takes back. */
  ghost predicate Later(g: Guest, h: Guest) {
    WorkLater(g.work, h.work) && FlagsLater(g, h)
  }

  lemma RoundGoesOn(work: Work, mounts: set<nat>, pass: Secret)
    ensures WorkLater(work, MountRound(work, mounts, pass))
  {
  }

  lemma MountTickWork(c: Config, g: Guest, send: SendResult, elapsed: nat, mounts: set<nat>)
    ensures MountTick(c, g, send, elapsed, mounts).work in {g.work, MountRound(g.work, mounts, g.spass)}
  {
  }

  lemma MountTickFlags(c: Config, g: Guest, send: SendResult, elapsed: nat, mounts: set<nat>)
    ensures FlagsLater(g, MountTick(c, g, send, elapsed, mounts))
    ensures MountTick(c, g, send, elapsed, mounts).deleted == g.deleted
  {
    if !g.mountDone && c.shareOk {
      if g.spass.Missing? {
        QueryTickFlags(c, g, send);
        assert MountTick(c, g, send, elapsed, mounts) == QueryTick(c, g, send);
      } else {
        SharesTickFlags(c, g, elapsed, mounts);
        assert MountTick(c, g, send, elapsed, mounts) == SharesTick(c, g, elapsed, mounts);
      }
    }
  }

  lemma QueryTickFlags(c: Config, g: Guest, send: SendResult)
    requires !g.mountDone
    ensures FlagsLater(g, QueryTick(c, g, send)) && QueryTick(c, g, send).deleted == g.deleted
  {
  }

  lemma SharesTickFlags(c: Config, g: Guest, elapsed: nat, mounts: set<nat>)
    requires !g.mountDone
    ensures FlagsLater(g, SharesTick(c, g, elapsed, mounts)) && SharesTick(c, g, elapsed, mounts).deleted == g.deleted
  {
  }

  lemma UdpWork(c: Config, g: Guest, d: Datagram, mounts: set<nat>)
    requires |c.key2| == KEYLEN
    ensures var h := UdpReceived(c, g, d, mounts); h.work in {g.work, MountRound(g.work, mounts, h.spass)}
  {
  }

  lemma UdpFlags(c: Config, g: Guest, d: Datagram, mounts: set<nat>)
    requires |c.key2| == KEYLEN
    ensures FlagsLater(g, UdpReceived(c, g, d, mounts))
    ensures UdpReceived(c, g, d, mounts).deleted == g.deleted
  {
  }

  lemma ScriptGoesOn(c: Config, g: Guest)
    requires g.deleted ==> g.scriptDone
    ensures Later(g, ScriptTick(c, g)) && ScriptTick(c, g).deleted == g.deleted
  {
  }

  lemma WipeGoesOn(g: Guest, h: Guest)
    requires Later(g, h) && h.deleted == g.deleted
    ensures Later(g, WipeCheck(h))
  {
  }

  lemma DispatchGoesOn(c: Config, g: Guest, m: Message)
    requires |c.key2| == KEYLEN && (g.deleted ==> g.scriptDone)
    ensures Later(g, Dispatch(c, g, m))
  {
    match m {
      case MountTimer(send, elapsed, mounts) =>
        MountTickWork(c, g, send, elapsed, mounts);
        MountTickFlags(c, g, send, elapsed, mounts);
        RoundGoesOn(g.work, mounts, g.spass);
      case ScriptTimer => ScriptGoesOn(c, g);
      case SockData(d, mounts) =>
        UdpWork(c, g, d, mounts);
        UdpFlags(c, g, d, mounts);
        RoundGoesOn(g.work, mounts, UdpReceived(c, g, d, mounts).spass);
      case OtherMessage =>
    }
    WipeGoesOn(g, Handle(c, g, m));
  }

  lemma LaterTrans(a: Guest, b: Guest, d: Guest)
    requires Later(a, b) && Later(b, d) && (a.scriptDone ==> b.launches == d.launches)
    ensures Later(a, d)
  {
  }

  /** Along every run: flags never revert, nothing is launched after the script
      is done or the password wiped, and connected drives stay connected. */
  lemma {:induction false} RunGoesOn(c: Config, dm: Daemon, demo: bool, w: World, events: seq<Event>)
    requires Paired(c, dm) && |c.key2| == KEYLEN
    requires Inv(c, dm, demo, w) && (demo ==> w.guest.spass != Missing)
    ensures Later(w.guest, Run(c, dm, w, events).guest)
    ensures var w' := Run(c, dm, w, events); Inv(c, dm, demo, w') && (demo ==> w'.guest.spass != Missing)
    decreases |events|
  {
    if events != [] {
      var front, ev := events[..|events| - 1], events[|events| - 1];
      RunGoesOn(c, dm, demo, w, front);
      var mid := Run(c, dm, w, front);
      StepKeeps(c, dm, demo, mid, ev);
      var end := Step(c, dm, mid, ev);
      if Possible(mid, ev) && ev.GuestGets? {
        DispatchGoesOn(c, mid.guest, ev.message);
        LaterTrans(w.guest, mid.guest, end.guest);
      }
    }
  }

  // ----- The agent's statics and callbacks -----

  /** The loop body: skip a connected drive, put off a printer, or try to connect. */
  method MountOne(d: Drive, i: nat, withPrinters: bool, mounts: set<nat>, pass: Secret) returns (after: Drive, tried: seq<Try>)
    ensures after == AfterTry(d, i, withPrinters, mounts)
    ensures tried == if Attempted(d, withPrinters) then [Try(i, i in mounts, pass)] else []
  {
    after, tried := d, [];
    if d.success {
      return;
    }
    if withPrinters || !d.printer {
      tried := [Try(i, i in mounts, pass)];
      if i in mounts {
        after := d.(success := true);
      }
    }
  }

  /** The loop of mountNetworkShares over its drives; counts the ones still missing. */
  method MountDrives(work: Work, mounts: set<nat>, pass: Secret) returns (after: Work, failCount: nat)
    ensures after == MountRound(work, mounts, pass)
    ensures failCount == 0 <==> AllMounted(after.drives)
  {
    var drives, tries: seq<Try> := work.drives, [];
    var attemptNo := work.rounds + 1;
    var withPrinters := attemptNo > 4;
    failCount := 0;
    for i := 0 to |drives|
      invariant |drives| == |work.drives|
      invariant forall j :: 0 <= j < |drives| ==>
                  drives[j] == if j < i then AfterTry(work.drives[j], j, withPrinters, mounts) else work.drives[j]
      invariant tries == TriesUpTo(work.drives, i, withPrinters, mounts, pass)
      invariant failCount == 0 <==> forall j :: 0 <= j < i ==> drives[j].success
    {
      var d, tried := MountOne(drives[i], i, withPrinters, mounts, pass);
      drives := drives[i := d];
      tries := tries + tried;
      if !d.success {
        failCount := failCount + 1;
      }
    }
    assert drives == Mounted(work.drives, withPrinters, mounts);
    after := Work(drives, work.tries + tries, attemptNo);
  }

  class Agent {
    const config: Config
    var mountDone: bool
    var scriptDone: bool
    var deleted: bool
    var hung: bool
    var spass: Secret
    var sockOpen: bool
    var attempts: nat
    var entered: nat
    var fails: nat
    var work: Work
    var outbox: set<Datagram>
    var launches: seq<Launch>

    ghost function View(): Guest
      reads this
    {
      Guest(mountDone, scriptDone, deleted, hung, spass, sockOpen, attempts, entered, fails,
            work, outbox, launches)
    }

    constructor (config: Config, demo: bool, mountTimer: bool, scriptTimer: bool, printers: seq<bool>)
      ensures this.config == config && View() == Start(demo, mountTimer, scriptTimer, printers).guest
    {
      this.config := config;
      mountDone, scriptDone, deleted, hung := !mountTimer, !scriptTimer, false, false;
      spass := if demo then Known([]) else Missing;
      sockOpen, attempts, entered, fails := false, 0, 0, 0;
      work := Work(seq(|printers|, i requires 0 <= i < |printers| => Drive(printers[i], false)), [], 0);
      outbox, launches := {}, [];
    }

    method MountNetworkShares(mounts: set<nat>) returns (ok: bool)
      modifies this`work
      ensures View() == MountShares(config, old(View()), mounts)
      ensures ok == (!config.shareOk || (spass != Missing && AllMounted(work.drives)))
    {
      if !config.shareOk {
        return true;
      }
      if spass == Missing {
        return false;
      }
      var failCount;
      work, failCount := MountDrives(work, mounts, spass);
      ok := failCount == 0;
    }

    /** Zero once there is a password. */
    method QueryPasswordDaemon(send: SendResult) returns (ret: int)
      modifies this`sockOpen, this`outbox
      ensures ret == 0 <==> !config.shareOk || spass != Missing
      ensures ret != 0 ==> ret == match send case NoWindow => 6 case NoWinsock => 2 case NoSocket => 3 case NotSent => 4 case Sent => -1
      ensures View() == if ret == 0 then old(View()) else Query(config, old(View()), send)
    {
      if !config.shareOk || spass != Missing {
        return 0;
      }
      match send {
        case NoWindow => return 6;
        case NoWinsock => return 2;
        case NoSocket => return 3;
        case NotSent =>
          sockOpen := true;
          return 4;
        case Sent =>
          sockOpen := true;
          outbox := outbox + {config.key1};
          return -1;
      }
    }

    method SetupNetworkDrives(send: SendResult, elapsed: nat, mounts: set<nat>)
      modifies this`mountDone, this`attempts, this`entered, this`work, this`sockOpen, this`outbox
      ensures View() == MountTick(config, old(View()), send, elapsed, mounts)
    {
      if mountDone {
        return;
      }
      entered := entered + 1;
      var again := false;
      if config.shareOk {
        again := TryOnce(send, elapsed, mounts);
      }
      if !again {
        mountDone := true;
      }
    }

    /** Ask for the password or, with one, mount; `again` when another tick shall try. */
    method TryOnce(send: SendResult, elapsed: nat, mounts: set<nat>) returns (again: bool)
      requires config.shareOk
      modifies this`attempts, this`work, this`sockOpen, this`outbox
      ensures View().(mountDone := !again) == Attempt(config, old(View()), send, elapsed, mounts)
    {
      var ret := QueryPasswordDaemon(send);
      if ret != 0 {
        again := CountAttempt(10);
      } else {
        again := TryShares(elapsed, mounts);
      }
    }

    method CountAttempt(limit: nat) returns (again: bool)
      modifies this`attempts
      ensures RetryUnless(old(View()), limit) == View().(mountDone := !again)
    {
      attempts := attempts + 1;
      return attempts < limit;
    }

    /** The branch that has a password; `again` when another tick shall try. */
    method TryShares(elapsed: nat, mounts: set<nat>) returns (again: bool)
      requires config.shareOk && !spass.Missing?
      modifies this`attempts, this`work
      ensures CloseShares(MountShares(config, old(View()), mounts), elapsed) == View().(mountDone := !again)
    {
      var ok := MountNetworkShares(mounts);
      again := false;
      if !ok && elapsed < 30000 {
        again := CountAttempt(15);
      }
    }

    method LaunchRunscript()
      modifies this`scriptDone, this`hung, this`fails, this`launches
      ensures View() == ScriptTick(config, old(View()))
    {
      if scriptDone {
        return;
      }
      if spass != Missing {
        var user, pass := config.widen(config.user), config.widen(SecretBytes(spass));
        if user.Some? && pass.Some? {
          if !Quote.CallsReturn(user.value, pass.value) {
            hung := true;
            return;
          }
          var params, len := Quote.BuildParams(user.value, pass.value);
          launches := launches + [Launch(params[..len], spass)];
          scriptDone := true;
          return;
        }
      }
      fails := fails + 1;
      if fails > 12 {
        scriptDone := true;
      }
    }

    method ReceiveUdp(datagram: Datagram, mounts: set<nat>)
      requires |config.key2| == KEYLEN
      modifies this`spass, this`sockOpen, this`work
      ensures View() == UdpReceived(config, old(View()), datagram, mounts)
    {
      if !sockOpen {
        return;
      }
      var ret := Received(datagram);
      if ret < 2 {
        return;
      }
      var len := ReplyLength(datagram);
      if ret - 2 != len {
        return;
      }
      spass := Known(Xored(datagram[2..], config.key2));
      sockOpen := false;
      var _ := MountNetworkShares(mounts);
    }

    /** One message, then the wipe check. */
    method DispatchMessage(m: Message)
      requires |config.key2| == KEYLEN
      modifies this
      ensures View() == Dispatch(config, old(View()), m)
    {
      if hung {
        return;
      }
      match m {
        case MountTimer(send, elapsed, mounts) => SetupNetworkDrives(send, elapsed, mounts);
        case ScriptTimer => LaunchRunscript();
        case SockData(d, mounts) => ReceiveUdp(d, mounts);
        case OtherMessage =>
      }
      if hung {
        return;
      }
      if !deleted && mountDone && scriptDone {
        if spass != Missing {
          spass := Wiped;
          deleted := true;
        }
      }
    }
  }
}
