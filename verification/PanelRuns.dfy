/** What each event does to the task list of PanelModel, in every state that a run
    of fspanel reaches, said in terms of windows, flags and numbers. */
module PanelRuns {
  import opened Bits
  import opened PanelModel

  /** A task without its place. */
  datatype Look = Look(win: Window, focused: bool, iconified: bool)

  function LookOf(t: Task): Look {
    Look(t.win, t.focused, t.iconified)
  }

  function Looks(tasks: seq<Task>): (r: seq<Look>)
    ensures |r| == |tasks| && forall i :: 0 <= i < |tasks| ==> r[i] == LookOf(tasks[i])
  {
    seq(|tasks|, i requires 0 <= i < |tasks| => LookOf(tasks[i]))
  }

  /** The list without the tasks of one window, in order. */
  function Others(looks: seq<Look>, win: Window): seq<Look> {
    if looks == [] then []
    else (if looks[0].win == win then [] else [looks[0]]) + Others(looks[1..], win)
  }

  lemma RunNext(s: Screen, events: seq<Event>, n: nat)
    requires n < |events|
    ensures Run(s, events, n + 1) == Step(s, Run(s, events, n), events[n])
    ensures Good(s, Run(s, events, n))
  {
    RunIsGood(s, events, n);
  }

  // ----- Destroyed windows -----

  lemma {:induction false} NoneToDrop(looks: seq<Look>, win: Window)
    requires forall i :: 0 <= i < |looks| ==> looks[i].win != win
    ensures Others(looks, win) == looks
    decreases |looks|
  {
    if looks != [] {
      NoneToDrop(looks[1..], win);
    }
  }

  lemma {:induction false} OneToDrop(looks: seq<Look>, win: Window, k: nat)
    requires k < |looks| && looks[k].win == win
    requires forall i :: 0 <= i < |looks| && i != k ==> looks[i].win != win
    ensures Others(looks, win) == looks[..k] + looks[k + 1..]
    decreases k
  {
    if k == 0 {
      NoneToDrop(looks[1..], win);
    } else {
      OneToDrop(looks[1..], win, k - 1);
      assert looks[..k] + looks[k + 1..] == [looks[0]] + (looks[1..][..k - 1] + looks[1..][k..]);
    }
  }

  lemma WithoutIsOthers(tasks: seq<Task>, win: Window)
    requires Unique(tasks)
    ensures Looks(Without(tasks, win)) == Others(Looks(tasks), win)
  {
    var k := Index(tasks, win);
    IndexFinds(tasks, win);
    if k < |tasks| {
      OneToDrop(Looks(tasks), win, k);
    } else {
      NoneToDrop(Looks(tasks), win);
    }
  }

  lemma LaidOutLooks(s: Screen, tasks: seq<Task>)
    ensures Looks(LaidOut(s, tasks)) == Looks(tasks)
  {
  }

  /** A destroyed window loses its task; all others stay as they are, in order. */
  lemma RunDestroys(s: Screen, events: seq<Event>, n: nat)
    requires n < |events| && events[n].Destroy?
    ensures var p, q := Run(s, events, n), Run(s, events, n + 1);
            && Looks(q.tasks) == Others(Looks(p.tasks), events[n].win)
            && q.desktop == p.desktop && q.hidden == p.hidden && q.atTop == p.atTop
  {
    RunNext(s, events, n);
    var p := Run(s, events, n);
    WithoutIsOthers(p.tasks, events[n].win);
    LaidOutLooks(s, Without(p.tasks, events[n].win));
  }

  // ----- Focus and window state -----

  /** After a focus event exactly the task of that window is focused, and nothing else differs. */
  lemma RunFocuses(s: Screen, events: seq<Event>, n: nat)
    requires n < |events| && events[n].FocusIn?
    ensures var p, q := Run(s, events, n), Run(s, events, n + 1);
            && |q.tasks| == |p.tasks|
            && (forall i :: 0 <= i < |p.tasks| ==> q.tasks[i] == p.tasks[i].(focused := p.tasks[i].win == events[n].win))
            && q.desktop == p.desktop && q.hidden == p.hidden && q.atTop == p.atTop
  {
    RunNext(s, events, n);
  }

  /** After a state change the task of that window is iconified exactly when the server
      says so, and nothing else differs. */
  lemma RunIconifies(s: Screen, events: seq<Event>, n: nat)
    requires n < |events| && events[n].PropertyNotify? && events[n].win != s.root && events[n].property == WmState
    ensures var p, q, e := Run(s, events, n), Run(s, events, n + 1), events[n];
            && |q.tasks| == |p.tasks|
            && (forall i :: 0 <= i < |p.tasks| ==>
                  q.tasks[i] == if p.tasks[i].win == e.win then p.tasks[i].(iconified := e.win in e.display.iconic) else p.tasks[i])
            && q.desktop == p.desktop && q.hidden == p.hidden && q.atTop == p.atTop
  {
    RunNext(s, events, n);
    IndexFinds(Run(s, events, n).tasks, events[n].win);
  }

  /** Other property changes, and drawing again, change nothing that is shown. */
  lemma RunIgnores(s: Screen, events: seq<Event>, n: nat)
    requires n < |events|
    requires var e := events[n];
             || e.Expose? || e.OtherEvent?
             || (e.PropertyNotify? && e.win != s.root && e.property != WmState)
             || (e.PropertyNotify? && e.win == s.root && s.ewmh && e.property != NetClientList && e.property != NetCurrentDesktop)
             || (e.PropertyNotify? && e.win == s.root && !s.ewmh && e.property != WinClientList && e.property != WinWorkspace)
    ensures Run(s, events, n + 1) == Run(s, events, n)
  {
    RunNext(s, events, n);
    var p := Run(s, events, n);
    assert LaidOut(s, p.tasks) == p.tasks;
  }

  // ----- Clicks on the controls and beside the tasks -----

  /** Arrows change nothing; the left grill shows a hidden panel or moves it between top
      and bottom; the right grill hides or shows it; a click that hits no task anywhere
      else takes the focus away. */
  lemma RunPresses(s: Screen, events: seq<Event>, n: nat)
    requires n < |events| && events[n].Press?
    ensures var p, q, x, y := Run(s, events, n), Run(s, events, n + 1), events[n].x, events[n].y;
            && q.desktop == p.desktop
            && (4 <= y <= 20 && (25 <= x <= 33 || 50 <= x <= 58) ==> q == p)
            && (x < 6 ==> q.tasks == p.tasks && !q.hidden && (q.atTop != p.atTop <==> !p.hidden))
            && (6 <= x && s.width - 6 < x && !(4 <= y <= 20 && (25 <= x <= 33 || 50 <= x <= 58)) ==>
                  q.tasks == p.tasks && q.hidden != p.hidden && q.atTop == p.atTop)
            && (6 <= x <= s.width - 6 && !(4 <= y <= 20 && (25 <= x <= 33 || 50 <= x <= 58))
                && (forall i :: 0 <= i < |p.tasks| ==> !Hit(p.tasks[i], x)) ==>
                  && q.hidden == p.hidden && q.atTop == p.atTop && |q.tasks| == |p.tasks|
                  && forall i :: 0 <= i < |p.tasks| ==> q.tasks[i] == p.tasks[i].(focused := false))
  {
    RunNext(s, events, n);
  }

  // ----- The client list -----

  /** Without a client list only the desktop is taken over. */
  lemma RunWithoutClients(s: Screen, events: seq<Event>, n: nat)
    requires n < |events| && events[n].PropertyNotify? && events[n].win == s.root && events[n].display.clients.None?
    requires ListChanged(s, events[n].property)
    ensures Run(s, events, n + 1) == Run(s, events, n).(desktop := events[n].display.desktop)
  {
    RunNext(s, events, n);
    var p := Run(s, events, n);
    assert LaidOut(s, p.tasks) == p.tasks;
  }

  lemma {:induction false} NewcomersIconic(tasks: seq<Task>, x: Display, desktop: int, clients: seq<Window>, n: nat)
    requires n <= |clients|
    ensures forall t :: t in Newcomers(tasks, x, desktop, clients, n) ==>
              !Has(tasks, t.win) && (t.iconified <==> t.win in x.iconic)
  {
    if n > 0 {
      NewcomersIconic(tasks, x, desktop, clients, n - 1);
    }
  }

  lemma SurvivorsLook(p: Panel, x: Display, clients: seq<Window>, t: Task)
    requires t in Survivors(p, x, clients)
    ensures x.desktop == p.desktop
    ensures exists i :: 0 <= i < |p.tasks| && p.tasks[i].win == t.win && p.tasks[i].iconified == t.iconified
  {
    KeptMembers(p.tasks, |p.tasks|, x.focus, Keep(p, x, clients));
  }

  /** After a client list change: the desktop is the current one; a task that was there
      keeps its iconic state, a new one takes it from the server; focus is the server's. */
  lemma RunReconciles(s: Screen, events: seq<Event>, n: nat)
    requires n < |events| && events[n].PropertyNotify? && events[n].win == s.root && events[n].display.clients.Some?
    requires if s.ewmh then events[n].property in {NetClientList, NetCurrentDesktop} else events[n].property in {WinClientList, WinWorkspace}
    ensures var p, q, x := Run(s, events, n), Run(s, events, n + 1), events[n].display;
            && q.desktop == x.desktop && q.hidden == p.hidden && q.atTop == p.atTop
            && forall i :: 0 <= i < |q.tasks| ==>
                 && (q.tasks[i].focused <==> q.tasks[i].win == x.focus)
                 && (x.desktop == p.desktop ==> forall j :: 0 <= j < |p.tasks| && p.tasks[j].win == q.tasks[i].win ==>
                       p.tasks[j].iconified == q.tasks[i].iconified)
                 && (x.desktop != p.desktop || !Has(p.tasks, q.tasks[i].win) ==> (q.tasks[i].iconified <==> q.tasks[i].win in x.iconic))
  {
    RunNext(s, events, n);
    var p, x := Run(s, events, n), events[n].display;
    var r := Reconciled(p, x).tasks;
    Reconciliation(p, x);
    forall i | 0 <= i < |r|
      ensures TaskSource(p, x, r[i])
    {
      ReconciledTask(p, x, i);
    }
  }

  /** Where a task after reconciling comes from. */
  ghost predicate TaskSource(p: Panel, x: Display, t: Task) {
    || (x.desktop == p.desktop && exists j :: 0 <= j < |p.tasks| && p.tasks[j].win == t.win && p.tasks[j].iconified == t.iconified)
    || ((x.desktop != p.desktop || !Has(p.tasks, t.win)) && (t.iconified <==> t.win in x.iconic))
  }

  lemma ReconciledTask(p: Panel, x: Display, i: nat)
    requires x.clients.Some? && Unique(p.tasks) && i < |Reconciled(p, x).tasks|
    ensures TaskSource(p, x, Reconciled(p, x).tasks[i])
  {
    var clients, r := x.clients.value, Reconciled(p, x).tasks;
    var old' := Survivors(p, x, clients);
    var new' := Newcomers(old', x, x.desktop, clients, |clients|);
    Reconciliation(p, x);
    if i < |old'| {
      SurvivorsLook(p, x, clients, old'[i]);
    } else {
      NewcomersIconic(old', x, x.desktop, clients, |clients|);
      assert new'[i - |old'|] in new' && r[i] == new'[i - |old'|];
      if x.desktop == p.desktop {
        KeptHas(p.tasks, x.focus, clients, r[i].win);
        NewcomersAreClients(old', x, x.desktop, clients, |clients|);
      }
    }
  }

  lemma {:induction false} NewcomersAreClients(tasks: seq<Task>, x: Display, desktop: int, clients: seq<Window>, n: nat)
    requires n <= |clients|
    ensures forall t :: t in Newcomers(tasks, x, desktop, clients, n) ==> t.win in clients
  {
    if n > 0 {
      NewcomersAreClients(tasks, x, desktop, clients, n - 1);
    }
  }

  /** Which windows have a task after a client list change, with visibility spelled out. */
  lemma RunShowsVisible(s: Screen, events: seq<Event>, n: nat, win: Window)
    requires n < |events| && events[n].PropertyNotify? && events[n].win == s.root && events[n].display.clients.Some?
    requires if s.ewmh then events[n].property in {NetClientList, NetCurrentDesktop} else events[n].property in {WinClientList, WinWorkspace}
    ensures var p, x := Run(s, events, n), events[n].display;
            var here := win !in x.skipped && (win !in x.places || x.places[win] == -1 || x.places[win] == x.desktop);
            Has(Run(s, events, n + 1).tasks, win) <==>
            win in x.clients.value && (here || (x.desktop == p.desktop && Has(p.tasks, win)))
  {
    RunShowsClients(s, events, n, win);
  }

  // ----- Layout -----

  /** In every reachable state the tasks stand side by side from 80 on, one pixel apart,
      equally wide, at most 145 each, and as wide as the room allows. */
  lemma RunLayout(s: Screen, events: seq<Event>, n: nat) returns (w: int)
    requires n <= |events| && Run(s, events, n).tasks != []
    ensures var tasks := Run(s, events, n).tasks; var room := s.width - 139;
            && (forall i :: 0 <= i < |tasks| ==> tasks[i].posX == 80 + i * w && tasks[i].width == w - 1)
            && w <= 145 && (room >= 0 ==> |tasks| * w <= room) && (room >= 0 && w < 145 ==> room < |tasks| * (w + 1))
  {
    RunIsGood(s, events, n);
    var k := |Run(s, events, n).tasks|;
    w := Pitch(s, k);
    if RoomFor(s) >= 0 {
      PitchFits(s, k);
      QuotientRest(RoomFor(s), k);
    }
  }

  lemma QuotientRest(a: nat, b: nat)
    requires b > 0
    ensures a < b * (a / b + 1)
  {
    assert a == a / b * b + a % b;
    assert b * (a / b + 1) == a / b * b + b;
  }
}
