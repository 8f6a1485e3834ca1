/** What the task list of core/modules/fspanel/fspanel/fspanel.c shows: the list as
    a sequence, the effect of every event on it, and what holds over whole runs.
    TaskList.dfy ties the linked list to these functions. */
module PanelModel {
  import opened Bits

  type Window = int

  datatype Task = Task(win: Window, focused: bool, iconified: bool, posX: int, width: int)

  /** What the X server answers while one event is handled. A window without a
      desktop of its own, or with desktop -1, is visible everywhere. */
  datatype Display = Display(clients: Option<seq<Window>>, focus: Window, desktop: int,
                             places: map<Window, int>, skipped: set<Window>, iconic: set<Window>)

  /** Fixed at start: screen width, EWMH support, root window. */
  datatype Screen = Screen(width: int, ewmh: bool, root: Window)

  datatype Panel = Panel(tasks: seq<Task>, desktop: int, hidden: bool, atTop: bool)

  const INITIAL := Panel([], 0, false, false)

  predicate Visible(x: Display, win: Window, desktop: int) {
    (win in x.places ==> x.places[win] == -1 || x.places[win] == desktop) && win !in x.skipped
  }

  // ----- Searching, adding, deleting -----

  /** Position of the first task of a window, or the length. */
  function Index(tasks: seq<Task>, win: Window): (k: nat)
    ensures k <= |tasks| && (k < |tasks| ==> tasks[k].win == win)
  {
    if tasks == [] || tasks[0].win == win then 0 else 1 + Index(tasks[1..], win)
  }

  predicate Has(tasks: seq<Task>, win: Window) {
    exists i :: 0 <= i < |tasks| && tasks[i].win == win
  }

  ghost predicate Unique(tasks: seq<Task>) {
    forall i, j :: 0 <= i < j < |tasks| ==> tasks[i].win != tasks[j].win
  }

  /** The first match is where no earlier task has the window. */
  lemma {:induction false} IndexIsFirst(tasks: seq<Task>, win: Window, k: nat)
    requires k <= |tasks| && (k < |tasks| ==> tasks[k].win == win)
    requires forall i :: 0 <= i < k ==> tasks[i].win != win
    ensures Index(tasks, win) == k
    decreases k
  {
    if k > 0 {
      IndexIsFirst(tasks[1..], win, k - 1);
    }
  }

  lemma {:induction false} IndexFinds(tasks: seq<Task>, win: Window)
    ensures Index(tasks, win) < |tasks| <==> Has(tasks, win)
    decreases |tasks|
  {
    if tasks != [] && tasks[0].win != win {
      IndexFinds(tasks[1..], win);
      if Has(tasks, win) {
        var i :| 0 <= i < |tasks| && tasks[i].win == win;
        assert tasks[1..][i - 1].win == win;
      }
    }
  }

  function Without(tasks: seq<Task>, win: Window): seq<Task> {
    var k := Index(tasks, win);
    if k < |tasks| then tasks[..k] + tasks[k + 1..] else tasks
  }

  function NewTask(x: Display, win: Window, focus: bool): Task {
    Task(win, focus, win in x.iconic, 0, 0)
  }

  function Added(tasks: seq<Task>, x: Display, desktop: int, win: Window, focus: bool): seq<Task> {
    if Visible(x, win, desktop) then tasks + [NewTask(x, win, focus)] else tasks
  }

  /** With unique windows, deleting removes a window entirely and nothing else. */
  lemma WithoutRemoves(tasks: seq<Task>, win: Window)
    requires Unique(tasks)
    ensures Unique(Without(tasks, win))
    ensures !Has(Without(tasks, win), win)
    ensures forall t :: t in Without(tasks, win) <==> t in tasks && t.win != win
  {
    IndexFinds(tasks, win);
    var k := Index(tasks, win);
    if k < |tasks| {
      var rest := Without(tasks, win);
      forall t | t in tasks && t.win != win ensures t in rest {
        var i :| 0 <= i < |tasks| && tasks[i] == t;
        assert t == if i < k then rest[i] else rest[i - 1];
      }
    }
  }

  // ----- Reconciling with the client list -----

  function Refocused(t: Task, focus: Window): Task {
    t.(focused := focus == t.win)
  }

  /** The first `n` tasks, those of windows outside `keep` left out. */
  function Kept(tasks: seq<Task>, n: nat, focus: Window, keep: seq<Window>): seq<Task>
    requires n <= |tasks|
  {
    if n == 0 then [] else
      Kept(tasks, n - 1, focus, keep) + if tasks[n - 1].win in keep then [Refocused(tasks[n - 1], focus)] else []
  }

  /** The list after the first `n` clients have been offered to it. */
  function Grown(tasks: seq<Task>, x: Display, desktop: int, clients: seq<Window>, n: nat): seq<Task>
    requires n <= |clients|
  {
    if n == 0 then tasks else
      var before := Grown(tasks, x, desktop, clients, n - 1);
      var win := clients[n - 1];
      if Has(before, win) then before else Added(before, x, desktop, win, win == x.focus)
  }

  /** The clients to keep tasks for: none after a change of desktop. */
  function Keep(p: Panel, x: Display, clients: seq<Window>): seq<Window> {
    if x.desktop != p.desktop then [] else clients
  }

  function Survivors(p: Panel, x: Display, clients: seq<Window>): seq<Task> {
    Kept(p.tasks, |p.tasks|, x.focus, Keep(p, x, clients))
  }

  function Reconciled(p: Panel, x: Display): Panel {
    if x.clients.None? then p.(desktop := x.desktop) else
      var clients := x.clients.value;
      p.(desktop := x.desktop, tasks := Grown(Survivors(p, x, clients), x, x.desktop, clients, |clients|))
  }

  /** Among the first `n` clients, in client order: each visible window once, unless
      it already has a task. Stated on the client list alone. */
  function Newcomers(tasks: seq<Task>, x: Display, desktop: int, clients: seq<Window>, n: nat): seq<Task>
    requires n <= |clients|
  {
    if n == 0 then [] else
      var win := clients[n - 1];
      Newcomers(tasks, x, desktop, clients, n - 1) +
      if win !in clients[..n - 1] && !Has(tasks, win) && Visible(x, win, desktop)
      then [NewTask(x, win, win == x.focus)] else []
  }

  lemma {:induction false} KeptMembers(tasks: seq<Task>, n: nat, focus: Window, keep: seq<Window>)
    requires n <= |tasks|
    ensures forall t :: t in Kept(tasks, n, focus, keep) <==>
                        exists i :: 0 <= i < n && tasks[i].win in keep && t == Refocused(tasks[i], focus)
  {
    if n > 0 {
      KeptMembers(tasks, n - 1, focus, keep);
    }
  }

  lemma HasAppend(tasks: seq<Task>, t: Task, win: Window)
    ensures Has(tasks + [t], win) <==> Has(tasks, win) || t.win == win
  {
    if Has(tasks, win) {
      var i :| 0 <= i < |tasks| && tasks[i].win == win;
      assert (tasks + [t])[i].win == win;
    }
    if t.win == win {
      assert (tasks + [t])[|tasks|].win == win;
    }
  }

  lemma UniqueAppend(tasks: seq<Task>, t: Task)
    requires Unique(tasks) && !Has(tasks, t.win)
    ensures Unique(tasks + [t])
  {
  }

  lemma {:induction false} KeptUnique(tasks: seq<Task>, n: nat, focus: Window, keep: seq<Window>)
    requires n <= |tasks| && Unique(tasks)
    ensures Unique(Kept(tasks, n, focus, keep))
  {
    if n > 0 {
      KeptUnique(tasks, n - 1, focus, keep);
      var before := Kept(tasks, n - 1, focus, keep);
      if tasks[n - 1].win in keep {
        KeptMembers(tasks, n - 1, focus, keep);
        assert forall i :: 0 <= i < |before| ==> before[i] in before;
        UniqueAppend(before, Refocused(tasks[n - 1], focus));
      }
    }
  }

  /** Which windows the growing list holds. */
  lemma {:induction false} GrownHas(tasks: seq<Task>, x: Display, desktop: int, clients: seq<Window>, n: nat, win: Window)
    requires n <= |clients|
    ensures Has(Grown(tasks, x, desktop, clients, n), win) <==>
            Has(tasks, win) || (win in clients[..n] && Visible(x, win, desktop))
  {
    if n > 0 {
      GrownHas(tasks, x, desktop, clients, n - 1, win);
      GrownHas(tasks, x, desktop, clients, n - 1, clients[n - 1]);
      assert clients[..n] == clients[..n - 1] + [clients[n - 1]];
      var before := Grown(tasks, x, desktop, clients, n - 1);
      HasAppend(before, NewTask(x, clients[n - 1], clients[n - 1] == x.focus), win);
    }
  }

  /** Offering the clients one by one appends exactly the newcomers. */
  lemma {:induction false} GrownAppends(tasks: seq<Task>, x: Display, desktop: int, clients: seq<Window>, n: nat)
    requires n <= |clients|
    ensures Grown(tasks, x, desktop, clients, n) == tasks + Newcomers(tasks, x, desktop, clients, n)
  {
    if n > 0 {
      GrownAppends(tasks, x, desktop, clients, n - 1);
      GrownHas(tasks, x, desktop, clients, n - 1, clients[n - 1]);
    }
  }

  lemma {:induction false} GrownUnique(tasks: seq<Task>, x: Display, desktop: int, clients: seq<Window>, n: nat)
    requires n <= |clients| && Unique(tasks)
    ensures Unique(Grown(tasks, x, desktop, clients, n))
  {
    if n > 0 {
      GrownUnique(tasks, x, desktop, clients, n - 1);
      var before, win := Grown(tasks, x, desktop, clients, n - 1), clients[n - 1];
      if !Has(before, win) {
        UniqueAppend(before, NewTask(x, win, win == x.focus));
      }
    }
  }

  ghost predicate FocusIs(tasks: seq<Task>, focus: Window) {
    forall i :: 0 <= i < |tasks| ==> (tasks[i].focused <==> tasks[i].win == focus)
  }

  lemma {:induction false} KeptFocus(tasks: seq<Task>, n: nat, focus: Window, keep: seq<Window>)
    requires n <= |tasks|
    ensures FocusIs(Kept(tasks, n, focus, keep), focus)
  {
    if n > 0 {
      KeptFocus(tasks, n - 1, focus, keep);
    }
  }

  lemma {:induction false} GrownFocus(tasks: seq<Task>, x: Display, desktop: int, clients: seq<Window>, n: nat)
    requires n <= |clients| && FocusIs(tasks, x.focus)
    ensures FocusIs(Grown(tasks, x, desktop, clients, n), x.focus)
  {
    if n > 0 {
      GrownFocus(tasks, x, desktop, clients, n - 1);
    }
  }

  lemma {:induction false} KeptNone(tasks: seq<Task>, n: nat, focus: Window)
    requires n <= |tasks|
    ensures Kept(tasks, n, focus, []) == []
  {
    if n > 0 {
      KeptNone(tasks, n - 1, focus);
    }
  }

  lemma KeptHas(tasks: seq<Task>, focus: Window, keep: seq<Window>, win: Window)
    ensures Has(Kept(tasks, |tasks|, focus, keep), win) <==> Has(tasks, win) && win in keep
  {
    var kept := Kept(tasks, |tasks|, focus, keep);
    KeptMembers(tasks, |tasks|, focus, keep);
    if Has(kept, win) {
      var i :| 0 <= i < |kept| && kept[i].win == win;
      assert kept[i] in kept;
    }
    if Has(tasks, win) && win in keep {
      var i :| 0 <= i < |tasks| && tasks[i].win == win;
      assert Refocused(tasks[i], focus) in kept;
    }
  }

  /** Reconciling: survivors in their old order, then the newly visible windows in
      client order; no window twice; focus follows the display. */
  lemma Reconciliation(p: Panel, x: Display)
    requires x.clients.Some? && Unique(p.tasks)
    ensures var clients, after := x.clients.value, Reconciled(p, x).tasks;
            && after == Survivors(p, x, clients) + Newcomers(Survivors(p, x, clients), x, x.desktop, clients, |clients|)
            && Unique(after) && FocusIs(after, x.focus)
    ensures x.desktop != p.desktop ==> Survivors(p, x, x.clients.value) == []
  {
    var clients := x.clients.value;
    var survivors := Survivors(p, x, clients);
    GrownAppends(survivors, x, x.desktop, clients, |clients|);
    KeptUnique(p.tasks, |p.tasks|, x.focus, Keep(p, x, clients));
    GrownUnique(survivors, x, x.desktop, clients, |clients|);
    KeptFocus(p.tasks, |p.tasks|, x.focus, Keep(p, x, clients));
    GrownFocus(survivors, x, x.desktop, clients, |clients|);
    KeptNone(p.tasks, |p.tasks|, x.focus);
  }

  /** Which windows have a task afterwards. On the same desktop an old task stays
      while its window is a client, whether or not it is still visible. */
  lemma ReconciledWindows(p: Panel, x: Display, win: Window)
    requires x.clients.Some?
    ensures Has(Reconciled(p, x).tasks, win) <==>
            win in x.clients.value && (Visible(x, win, x.desktop) || (x.desktop == p.desktop && Has(p.tasks, win)))
  {
    var clients := x.clients.value;
    GrownHas(Survivors(p, x, clients), x, x.desktop, clients, |clients|, win);
    KeptHas(p.tasks, x.focus, Keep(p, x, clients), win);
    assert clients[..|clients|] == clients;
  }

  // ----- Layout -----

  const LEFT := 80
  const TIME_WIDTH := 35
  const TEXTPAD := 6
  const MAX_TASK_WIDTH := 145
  const WINHEIGHT := 24

  /** C's division truncates toward zero. */
  function Truncated(a: int, b: int): int
    requires b > 0
  {
    if a >= 0 then a / b else -(-a / b)
  }

  function RoomFor(s: Screen): int {
    s.width - LEFT - TIME_WIDTH - TEXTPAD * 4
  }

  function Pitch(s: Screen, n: nat): int
    requires n > 0
  {
    var w := Truncated(RoomFor(s), n);
    if w > MAX_TASK_WIDTH then MAX_TASK_WIDTH else w
  }

  function Placed(s: Screen, n: nat, i: nat, t: Task): Task
    requires n > 0
  {
    t.(posX := LEFT + i * Pitch(s, n), width := Pitch(s, n) - 1)
  }

  function LaidOut(s: Screen, tasks: seq<Task>): seq<Task> {
    seq(|tasks|, i requires 0 <= i < |tasks| => Placed(s, |tasks|, i, tasks[i]))
  }

  /** A click at x is on the task. */
  predicate Hit(t: Task, x: int) {
    t.posX < x < t.posX + t.width
  }

  ghost predicate InPlace(s: Screen, tasks: seq<Task>) {
    forall i :: 0 <= i < |tasks| ==> tasks[i] == Placed(s, |tasks|, i, tasks[i])
  }

  /** No point of the panel belongs to two tasks. */
  lemma HitsDisjoint(s: Screen, tasks: seq<Task>, i: nat, j: nat, x: int)
    requires InPlace(s, tasks) && i < |tasks| && j < |tasks|
    requires Hit(tasks[i], x) && Hit(tasks[j], x)
    ensures i == j
  {
    var w := Pitch(s, |tasks|);
    if i < j {
      MulMonotone(i + 1, j, w);
    } else if j < i {
      MulMonotone(j + 1, i, w);
    }
  }

  /** The clock begins where the room for tasks ends. */
  function ClockX(s: Screen): int {
    s.width - TIME_WIDTH - TEXTPAD * 4
  }

  ghost predicate LeftOfClock(s: Screen, tasks: seq<Task>) {
    forall i :: 0 <= i < |tasks| ==> tasks[i].posX + tasks[i].width <= ClockX(s)
  }

  lemma QuotientFits(a: nat, b: nat)
    requires b > 0
    ensures a / b * b <= a && a / b <= a
  {
    assert a == a / b * b + a % b;
    MulMonotone(1, b, a / b);
  }

  lemma PitchFits(s: Screen, n: nat)
    requires n > 0 && RoomFor(s) >= 0
    ensures 0 <= Pitch(s, n) && n * Pitch(s, n) <= RoomFor(s)
  {
    QuotientFits(RoomFor(s), n);
    MulMonotone(Pitch(s, n), RoomFor(s) / n, n);
  }

  /** Without room the first task is the one that reaches furthest right. */
  lemma PitchOverlaps(s: Screen, n: nat)
    requires n > 0 && RoomFor(s) < 0
    ensures Pitch(s, n) <= 0
    ensures Pitch(s, n) - 1 <= RoomFor(s) <==> RoomFor(s) == -1 || n == 1 || (n == 2 && RoomFor(s) == -2)
  {
    var r := -RoomFor(s);
    QuotientFits(r, n);
    if n > 2 {
      MulMonotone(3, n, r / n);
      assert r == 1 ==> r / n == 0;
    }
  }

  /** When every task ends before the clock, exactly. */
  lemma LeftOfClockWhen(s: Screen, tasks: seq<Task>)
    requires InPlace(s, tasks)
    ensures LeftOfClock(s, tasks) <==>
            RoomFor(s) >= -1 || |tasks| <= 1 || (|tasks| == 2 && RoomFor(s) == -2)
  {
    var n := |tasks|;
    if n > 0 {
      var w := Pitch(s, n);
      assert tasks[0].posX == LEFT + 0 * w;
      if RoomFor(s) >= 0 {
        PitchFits(s, n);
        forall i | 0 <= i < n ensures tasks[i].posX + tasks[i].width <= ClockX(s) {
          MulMonotone(i + 1, n, w);
        }
      } else {
        PitchOverlaps(s, n);
        forall i | 0 <= i < n ensures tasks[i].posX + tasks[i].width <= LEFT + w - 1 {
          MulMonotone(0, i, -w);
        }
      }
    }
  }

  // ----- Clicks and focus -----

  predicate OnArrow(x: int, y: int) {
    3 < y < WINHEIGHT - 3 && (50 <= x < 59 || 25 <= x < 34)
  }

  function Clicked(t: Task, x: int): Task {
    if !Hit(t, x) then t.(focused := false)
    else if t.iconified then t.(iconified := false, focused := true)
    else if t.focused then t.(iconified := true, focused := false)
    else t.(focused := true)
  }

  function AllClicked(tasks: seq<Task>, x: int): seq<Task> {
    seq(|tasks|, i requires 0 <= i < |tasks| => Clicked(tasks[i], x))
  }

  /** Arrows only send a request to the window manager; the left grill shows the
      panel or moves it between top and bottom; the right grill hides or shows it. */
  function Pressed(s: Screen, p: Panel, x: int, y: int): Panel {
    if OnArrow(x, y) then p
    else if x < 6 then (if p.hidden then p.(hidden := false) else p.(atTop := !p.atTop))
    else if x + TEXTPAD > s.width then p.(hidden := !p.hidden)
    else p.(tasks := AllClicked(p.tasks, x))
  }

  function AllRefocused(tasks: seq<Task>, focus: Window): seq<Task> {
    seq(|tasks|, i requires 0 <= i < |tasks| => Refocused(tasks[i], focus))
  }

  /** The first task of a window takes the state the server reports. */
  function WithState(tasks: seq<Task>, win: Window, iconic: bool): seq<Task> {
    var k := Index(tasks, win);
    if k < |tasks| then tasks[k := tasks[k].(iconified := iconic)] else tasks
  }

  // ----- Events -----

  datatype Property = NetClientList | NetCurrentDesktop | WinClientList | WinWorkspace | WmState | OtherProperty

  datatype Event = Press(x: int, y: int) | Destroy(win: Window) | Expose
                 | PropertyNotify(win: Window, property: Property, display: Display)
                 | FocusIn(win: Window) | OtherEvent

  predicate ListChanged(s: Screen, property: Property) {
    if s.ewmh then property in {NetClientList, NetCurrentDesktop} else property in {WinClientList, WinWorkspace}
  }

  function Drawn(s: Screen, p: Panel): Panel {
    p.(tasks := LaidOut(s, p.tasks))
  }

  function Notified(s: Screen, p: Panel, win: Window, property: Property, x: Display): Panel {
    if win == s.root then (if ListChanged(s, property) then Drawn(s, Reconciled(p, x)) else p)
    else if property == WmState then p.(tasks := WithState(p.tasks, win, win in x.iconic))
    else p
  }

  function Step(s: Screen, p: Panel, e: Event): Panel {
    match e
    case Press(x, y) => Pressed(s, p, x, y)
    case Destroy(win) => Drawn(s, p.(tasks := Without(p.tasks, win)))
    case Expose => Drawn(s, p)
    case PropertyNotify(win, property, display) => Notified(s, p, win, property, display)
    case FocusIn(win) => p.(tasks := AllRefocused(p.tasks, win))
    case OtherEvent => p
  }

  function Run(s: Screen, events: seq<Event>, n: nat): Panel
    requires n <= |events|
  {
    if n == 0 then INITIAL else Step(s, Run(s, events, n - 1), events[n - 1])
  }

  // ----- What every run keeps -----

  ghost predicate OneFocus(tasks: seq<Task>) {
    forall i, j :: 0 <= i < j < |tasks| ==> !(tasks[i].focused && tasks[j].focused)
  }

  ghost predicate Good(s: Screen, p: Panel) {
    Unique(p.tasks) && OneFocus(p.tasks) && InPlace(s, p.tasks)
  }

  lemma FocusIsOne(tasks: seq<Task>, focus: Window)
    requires Unique(tasks) && FocusIs(tasks, focus)
    ensures OneFocus(tasks)
  {
  }

  /** Drawing keeps windows and focus and puts every task in its place. */
  lemma DrawnIsGood(s: Screen, p: Panel)
    requires Unique(p.tasks) && OneFocus(p.tasks)
    ensures Good(s, Drawn(s, p))
  {
  }

  /** Clicking needs the layout: one task at most is hit, so one at most is focused. */
  lemma ClickedIsGood(s: Screen, p: Panel, x: int)
    requires Good(s, p)
    ensures Good(s, p.(tasks := AllClicked(p.tasks, x)))
  {
    var after := AllClicked(p.tasks, x);
    forall i, j | 0 <= i < j < |after| ensures !(after[i].focused && after[j].focused) {
      if Hit(p.tasks[i], x) && Hit(p.tasks[j], x) {
        HitsDisjoint(s, p.tasks, i, j, x);
      }
    }
  }

  lemma ReconciledIsGood(s: Screen, p: Panel, x: Display)
    requires Good(s, p)
    ensures Good(s, Drawn(s, Reconciled(p, x)))
  {
    if x.clients.Some? {
      Reconciliation(p, x);
      FocusIsOne(Reconciled(p, x).tasks, x.focus);
    }
    DrawnIsGood(s, Reconciled(p, x));
  }

  lemma DeletedIsGood(s: Screen, p: Panel, win: Window)
    requires Good(s, p)
    ensures Good(s, Drawn(s, p.(tasks := Without(p.tasks, win))))
  {
    DrawnIsGood(s, p.(tasks := Without(p.tasks, win)));
  }

  lemma PressedIsGood(s: Screen, p: Panel, x: int, y: int)
    requires Good(s, p)
    ensures Good(s, Pressed(s, p, x, y))
  {
    ClickedIsGood(s, p, x);
  }

  lemma RefocusedIsGood(s: Screen, p: Panel, win: Window)
    requires Good(s, p)
    ensures Good(s, p.(tasks := AllRefocused(p.tasks, win)))
  {
    FocusIsOne(AllRefocused(p.tasks, win), win);
  }

  lemma WithStateIsGood(s: Screen, p: Panel, win: Window, iconic: bool)
    requires Good(s, p)
    ensures Good(s, p.(tasks := WithState(p.tasks, win, iconic)))
  {
  }

  lemma NotifiedIsGood(s: Screen, p: Panel, win: Window, property: Property, x: Display)
    requires Good(s, p)
    ensures Good(s, Notified(s, p, win, property, x))
  {
    ReconciledIsGood(s, p, x);
    WithStateIsGood(s, p, win, win in x.iconic);
  }

  lemma StepKeepsGood(s: Screen, p: Panel, e: Event)
    requires Good(s, p)
    ensures Good(s, Step(s, p, e))
  {
    match e
    case Press(x, y) => PressedIsGood(s, p, x, y);
    case Destroy(win) => DeletedIsGood(s, p, win);
    case Expose => DrawnIsGood(s, p);
    case PropertyNotify(win, property, display) => NotifiedIsGood(s, p, win, property, display);
    case FocusIn(win) => RefocusedIsGood(s, p, win);
    case OtherEvent =>
  }

  /** Over every run of events: unique windows, at most one focused task, every task
      where the layout puts it. */
  lemma {:induction false} RunIsGood(s: Screen, events: seq<Event>, n: nat)
    requires n <= |events|
    ensures Good(s, Run(s, events, n))
  {
    if n > 0 {
      RunIsGood(s, events, n - 1);
      StepKeepsGood(s, Run(s, events, n - 1), events[n - 1]);
    }
  }

  /** Hence in every reachable state no click is on two tasks. */
  lemma RunHitsDisjoint(s: Screen, events: seq<Event>, n: nat, i: nat, j: nat, x: int)
    requires n <= |events|
    ensures var tasks := Run(s, events, n).tasks;
            i < |tasks| && j < |tasks| && Hit(tasks[i], x) && Hit(tasks[j], x) ==> i == j
  {
    RunIsGood(s, events, n);
    var tasks := Run(s, events, n).tasks;
    if i < |tasks| && j < |tasks| && Hit(tasks[i], x) && Hit(tasks[j], x) {
      HitsDisjoint(s, tasks, i, j, x);
    }
  }

  /** In every reachable state a click on a task reaches that task and no control. */
  lemma RunClickReachesTask(s: Screen, events: seq<Event>, n: nat, i: nat, x: int, y: int)
    requires n <= |events| && i < |Run(s, events, n).tasks| && Hit(Run(s, events, n).tasks[i], x)
    ensures var p := Run(s, events, n); var q := Pressed(s, p, x, y);
            && |q.tasks| == |p.tasks| && q.hidden == p.hidden && q.atTop == p.atTop
            && (forall j :: 0 <= j < |p.tasks| && j != i ==> q.tasks[j] == p.tasks[j].(focused := false))
            && (q.tasks[i].focused <==> p.tasks[i].iconified || !p.tasks[i].focused)
            && (q.tasks[i].iconified <==> !p.tasks[i].iconified && p.tasks[i].focused)
  {
    var p := Run(s, events, n);
    RunIsGood(s, events, n);
    HitInRoom(s, p.tasks, i, x);
    forall j | 0 <= j < |p.tasks| && j != i ensures !Hit(p.tasks[j], x) {
      if Hit(p.tasks[j], x) {
        HitsDisjoint(s, p.tasks, i, j, x);
      }
    }
  }

  lemma HitInRoom(s: Screen, tasks: seq<Task>, i: nat, x: int)
    requires InPlace(s, tasks) && i < |tasks| && Hit(tasks[i], x)
    ensures LEFT < x < ClockX(s)
  {
    LeftOfClockWhen(s, tasks);
    MulMonotone(0, i, Pitch(s, |tasks|));
    if RoomFor(s) < 0 {
      PitchOverlaps(s, |tasks|);
    }
  }

  /** After any run, a change of the client list leaves exactly the clients that are
      visible, and on an unchanged desktop those that had a task before. */
  lemma RunShowsClients(s: Screen, events: seq<Event>, n: nat, win: Window)
    requires n < |events| && events[n].PropertyNotify? && events[n].win == s.root && ListChanged(s, events[n].property)
    requires events[n].display.clients.Some?
    ensures var p, x := Run(s, events, n), events[n].display;
            Has(Run(s, events, n + 1).tasks, win) <==>
            win in x.clients.value && (Visible(x, win, x.desktop) || (x.desktop == p.desktop && Has(p.tasks, win)))
  {
    var p, x := Run(s, events, n), events[n].display;
    ReconciledWindows(p, x, win);
    LaidOutHas(s, Reconciled(p, x).tasks, win);
  }

  lemma LaidOutHas(s: Screen, tasks: seq<Task>, win: Window)
    ensures Has(LaidOut(s, tasks), win) <==> Has(tasks, win)
  {
    var laid := LaidOut(s, tasks);
    assert forall i :: 0 <= i < |tasks| ==> laid[i].win == tasks[i].win;
  }
}
