/** The task list of core/modules/fspanel/fspanel/fspanel.c on the heap: linked
    nodes, relinked while they are iterated. Every method is tied to the function
    of PanelModel that says what it does to the list seen as a sequence. */
module TaskList {
  import opened Bits
  import opened PanelModel

  /** The C struct task; its name and icon are left out. */
  class Node {
    var next: Node?
    var win: Window
    var posX: int
    var width: int
    var focused: bool
    var iconified: bool

    constructor (win: Window, focused: bool, iconified: bool)
      ensures Shown() == Task(win, focused, iconified, 0, 0) && next == null
    {
      this.win, this.focused, this.iconified := win, focused, iconified;
      next, posX, width := null, 0, 0;
    }

    function Shown(): Task
      reads this
    {
      Task(win, focused, iconified, posX, width)
    }
  }

  /** Following `next` visits exactly `nodes`, each once, and they hold `tasks`. */
  ghost predicate Holds(nodes: seq<Node>, tasks: seq<Task>, repr: set<Node>)
    reads repr
  {
    && |tasks| == |nodes|
    && (forall i :: 0 <= i < |nodes| ==> nodes[i] in repr && nodes[i].Shown() == tasks[i])
    && (forall i :: 0 <= i < |nodes| - 1 ==> nodes[i].next == nodes[i + 1])
    && (nodes != [] ==> nodes[|nodes| - 1].next == null)
    && (forall i, j :: 0 <= i < j < |nodes| ==> nodes[i] != nodes[j])
  }

  ghost function Omit<T>(s: seq<T>, k: nat): (r: seq<T>)
    requires k < |s|
    ensures |r| == |s| - 1 && forall j :: 0 <= j < |r| ==> r[j] == s[if j < k then j else j + 1]
  {
    s[..k] + s[k + 1..]
  }

  /** The walk has passed `i` of the tasks and kept `k` of them. */
  ghost predicate Walked(was: seq<Task>, i: nat, focus: Window, keep: seq<Window>, k: nat, tasks: seq<Task>) {
    && i <= |was| && k == |Kept(was, i, focus, keep)|
    && tasks == Kept(was, i, focus, keep) + was[i..]
  }

  /** One round of the walk, at the task in position `k`. */
  ghost function VisitedTasks(tasks: seq<Task>, k: nat, focus: Window, keep: seq<Window>): seq<Task>
    requires k < |tasks|
  {
    if tasks[k].win in keep then tasks[k := Refocused(tasks[k], focus)] else Omit(tasks, k)
  }

  ghost predicate AllKept(tasks: seq<Task>, k: nat, keep: seq<Window>)
    requires k <= |tasks|
  {
    forall j :: 0 <= j < k ==> tasks[j].win in keep
  }

  lemma OmitChanged(tasks: seq<Task>, k: nat, t: Task)
    requires k < |tasks|
    ensures Omit(tasks[k := t], k) == Omit(tasks, k)
  {
  }

  lemma VisitedKeeps(tasks: seq<Task>, k: nat, focus: Window, keep: seq<Window>)
    requires k < |tasks| && AllKept(tasks, k, keep)
    ensures var k' := if tasks[k].win in keep then k + 1 else k;
            k' <= |VisitedTasks(tasks, k, focus, keep)| && AllKept(VisitedTasks(tasks, k, focus, keep), k', keep)
  {
  }

  /** The list after the rest of the walk. */
  ghost function Finished(tasks: seq<Task>, k: nat, focus: Window, keep: seq<Window>): seq<Task>
    requires k <= |tasks|
    decreases |tasks| - k
  {
    if k == |tasks| then tasks
    else Finished(VisitedTasks(tasks, k, focus, keep), if tasks[k].win in keep then k + 1 else k, focus, keep)
  }

  lemma WalkedStep(was: seq<Task>, i: nat, focus: Window, keep: seq<Window>, k: nat, tasks: seq<Task>)
    requires Walked(was, i, focus, keep, k, tasks) && i < |was|
    ensures k < |tasks| && tasks[k] == was[i]
    ensures Walked(was, i + 1, focus, keep, if was[i].win in keep then k + 1 else k, VisitedTasks(tasks, k, focus, keep))
  {
    assert was[i..] == [was[i]] + was[i + 1..];
  }

  lemma {:induction false} WalkedFinishes(was: seq<Task>, i: nat, focus: Window, keep: seq<Window>, k: nat, tasks: seq<Task>)
    requires Walked(was, i, focus, keep, k, tasks)
    ensures Finished(tasks, k, focus, keep) == Kept(was, |was|, focus, keep)
    decreases |was| - i
  {
    if i < |was| {
      WalkedStep(was, i, focus, keep, k, tasks);
      WalkedFinishes(was, i + 1, focus, keep, if was[i].win in keep then k + 1 else k, VisitedTasks(tasks, k, focus, keep));
    }
  }

  /** Deleting node by node while walking is filtering. */
  lemma FinishedIsKept(was: seq<Task>, focus: Window, keep: seq<Window>)
    ensures Finished(was, 0, focus, keep) == Kept(was, |was|, focus, keep)
  {
    assert was[0..] == was;
    WalkedFinishes(was, 0, focus, keep, 0, was);
  }

  class Taskbar {
    const screen: Screen
    var taskList: Node?
    var numTasks: int
    var myDesktop: int
    var hidden: bool
    var atTop: bool
    ghost var nodes: seq<Node>
    ghost var tasks: seq<Task>
    ghost var repr: set<Node>

    /** The list starts at taskList and numTasks counts it. */
    ghost predicate Valid()
      reads this, repr
    {
      numTasks == |nodes| && taskList == (if nodes == [] then null else nodes[0]) && Holds(nodes, tasks, repr)
    }

    ghost function Now(): Panel
      reads this
    {
      Panel(tasks, myDesktop, hidden, atTop)
    }

    constructor (screen: Screen)
      ensures Valid() && Now() == INITIAL && this.screen == screen && repr == {}
    {
      this.screen := screen;
      taskList, numTasks, myDesktop, hidden, atTop := null, 0, 0, false, false;
      nodes, tasks, repr := [], [], {};
    }

    // ----- Searching, adding, deleting -----

    method FindTask(win: Window) returns (found: Node?)
      requires Valid()
      ensures var k := Index(tasks, win); found == if k < |tasks| then nodes[k] else null
    {
      var list := taskList;
      ghost var i := 0;
      while list != null
        invariant 0 <= i <= |nodes| && list == (if i < |nodes| then nodes[i] else null)
        invariant forall j :: 0 <= j < i ==> tasks[j].win != win
        decreases |nodes| - i
      {
        if list.win == win {
          IndexIsFirst(tasks, win, i);
          return list;
        }
        list := list.next;
        i := i + 1;
      }
      IndexIsFirst(tasks, win, i);
      return null;
    }

    /** The walk to the end of a non-empty list. */
    method LastTask() returns (list: Node)
      requires Valid() && nodes != []
      ensures list == nodes[|nodes| - 1]
    {
      list := taskList;
      ghost var i := 0;
      while list.next != null
        invariant 0 <= i < |nodes| && list == nodes[i]
        invariant list.next == if i + 1 < |nodes| then nodes[i + 1] else null
        decreases |nodes| - i
      {
        list := list.next;
        i := i + 1;
      }
    }

    method AddTask(x: Display, win: Window, focus: bool)
      requires Valid()
      modifies this, repr
      ensures Valid() && Now() == old(Now()).(tasks := Added(old(tasks), x, old(myDesktop), win, focus))
      ensures fresh(repr - old(repr))
    {
      if !Visible(x, win, myDesktop) {
        return;
      }
      var tk := new Node(win, focus, win in x.iconic);
      var list: Node? := null;
      if taskList != null {
        list := LastTask();
      }
      Link(list, tk);
    }

    /** Append a node behind the last one. */
    method Link(list: Node?, tk: Node)
      requires Valid() && list == (if nodes == [] then null else nodes[|nodes| - 1]) && tk !in repr && tk.next == null
      modifies this, repr
      ensures Valid() && Now() == old(Now()).(tasks := old(tasks) + [old(tk.Shown())]) && repr == old(repr) + {tk}
    {
      if list == null {
        taskList := tk;
      } else {
        list.next := tk;
      }
      numTasks := numTasks + 1;
      ghost var was := nodes;
      nodes, tasks, repr := nodes + [tk], tasks + [tk.Shown()], repr + {tk};
      forall j | 0 <= j < |nodes| - 1 ensures nodes[j].next == nodes[j + 1] {
        assert nodes[j] == was[j] && (j < |was| - 1 ==> nodes[j + 1] == was[j + 1]);
      }
    }

    /** The node of a window and the one before it. */
    method FindWithPrevious(win: Window) returns (prev: Node?, list: Node?, ghost k: nat)
      requires Valid()
      ensures k == Index(tasks, win) && list == (if k < |tasks| then nodes[k] else null)
      ensures prev == if k == 0 then null else nodes[k - 1]
    {
      prev, list, k := null, taskList, 0;
      while list != null && list.win != win
        invariant 0 <= k <= |nodes| && list == (if k < |nodes| then nodes[k] else null)
        invariant prev == if k == 0 then null else nodes[k - 1]
        invariant forall j :: 0 <= j < k ==> tasks[j].win != win
        decreases |nodes| - k
      {
        prev, list := list, list.next;
        k := k + 1;
      }
      IndexIsFirst(tasks, win, k);
    }

    method DelTask(win: Window)
      requires Valid()
      modifies this, repr
      ensures Valid() && Now() == old(Now()).(tasks := Without(old(tasks), win))
      ensures var k := Index(old(tasks), win);
              nodes == if k < |old(nodes)| then Omit(old(nodes), k) else old(nodes)
      ensures repr == old(repr)
    {
      var prev, list, k := FindWithPrevious(win);
      if list != null {
        Unlink(prev, list, k);
      }
    }

    method Unlink(prev: Node?, list: Node, ghost k: nat)
      requires Valid() && k < |nodes| && list == nodes[k] && prev == if k == 0 then null else nodes[k - 1]
      modifies this, repr
      ensures Valid() && Now() == old(Now()).(tasks := Omit(old(tasks), k))
      ensures nodes == Omit(old(nodes), k) && repr == old(repr)
    {
      Bypass(prev, list, k);
      BypassedHolds(k);
      nodes, tasks := Omit(nodes, k), Omit(tasks, k);
    }

    lemma BypassedHolds(k: nat)
      requires k < |nodes| && Bypassed(k)
      ensures Holds(Omit(nodes, k), Omit(tasks, k), repr)
    {
      var rest := Omit(nodes, k);
      forall j | 0 <= j < |rest| ensures rest[j].next == if j + 1 < |rest| then rest[j + 1] else null {
        assert rest[j] == nodes[if j < k then j else j + 1];
      }
    }

    /** The links lead past the node at `k`. */
    ghost predicate Bypassed(k: nat)
      requires k < |nodes|
      reads this, repr
    {
      && numTasks == |nodes| - 1 == |tasks| - 1
      && (forall i :: 0 <= i < |nodes| ==> nodes[i] in repr && nodes[i].Shown() == tasks[i])
      && (forall i, j :: 0 <= i < j < |nodes| ==> nodes[i] != nodes[j])
      && taskList == After(if k == 0 then 1 else 0)
      && (forall i :: 0 <= i < |nodes| && i != k ==> nodes[i].next == After(if i + 1 == k then k + 1 else i + 1))
    }

    /** The node at a position, or null behind the last one. */
    ghost function After(i: nat): Node?
      reads this
    {
      if i < |nodes| then nodes[i] else null
    }

    method Bypass(prev: Node?, list: Node, ghost k: nat)
      requires Valid() && k < |nodes| && list == nodes[k] && prev == if k == 0 then null else nodes[k - 1]
      modifies this`numTasks, this`taskList, repr
      ensures Bypassed(k)
    {
      numTasks := numTasks - 1;
      if prev == null {
        taskList := list.next;
      } else {
        prev.next := list.next;
      }
    }

    // ----- Reconciling with the client list -----

    /** The search of the client list for one window, last client first. */
    method IsClient(win: Window, clients: seq<Window>) returns (found: bool)
      ensures found <==> win in clients
    {
      var i := |clients|;
      while i > 0
        invariant 0 <= i <= |clients| && win !in clients[i..]
      {
        i := i - 1;
        if clients[i] == win {
          return true;
        }
      }
      return false;
    }

    /** Assign the two flags of one node. */
    method SetFlags(tk: Node, ghost k: nat, focused: bool, iconified: bool)
      requires Valid() && k < |nodes| && tk == nodes[k]
      modifies this`tasks, tk`focused, tk`iconified
      ensures Valid() && tasks == old(tasks)[k := old(tasks)[k].(focused := focused, iconified := iconified)]
    {
      tk.focused, tk.iconified := focused, iconified;
      tasks := tasks[k := tk.Shown()];
    }

    /** Removing tasks of windows that are gone while walking the list. Every node
        already passed is a client's, so the window being removed has its first
        task at the current node. */
    method RemoveStale(focus: Window, clients: seq<Window>, newDesk: bool, ghost keep: seq<Window>)
      requires Valid() && keep == if newDesk then [] else clients
      modifies this, repr
      ensures Valid() && repr == old(repr)
      ensures Now() == old(Now()).(tasks := Kept(old(tasks), |old(tasks)|, focus, keep))
    {
      ghost var k: nat := 0;
      var list := taskList;
      while list != null
        invariant Valid() && Now() == old(Now()).(tasks := tasks) && repr == old(repr)
        invariant k <= |tasks| && AllKept(tasks, k, keep)
        invariant list == (if k < |nodes| then nodes[k] else null)
        invariant Finished(tasks, k, focus, keep) == Finished(old(tasks), 0, focus, keep)
        decreases |tasks| - k
      {
        k, list := Visit(list, k, focus, clients, newDesk, keep);
      }
      FinishedIsKept(old(tasks), focus, keep);
    }

    /** One round of that walk. */
    method Visit(list: Node, ghost k: nat, focus: Window, clients: seq<Window>, newDesk: bool, ghost keep: seq<Window>)
        returns (ghost k': nat, next: Node?)
      requires Valid() && k < |nodes| && list == nodes[k] && keep == if newDesk then [] else clients
      requires AllKept(tasks, k, keep)
      modifies this, repr
      ensures Valid() && next == (if k' < |nodes| then nodes[k'] else null) && repr == old(repr)
      ensures k' == if old(tasks)[k].win in keep then k + 1 else k
      ensures Now() == old(Now()).(tasks := VisitedTasks(old(tasks), k, focus, keep))
      ensures k' <= |tasks| && AllKept(tasks, k', keep)
    {
      SetFlags(list, k, focus == list.win, list.iconified);
      var found := false;
      if !newDesk {
        found := IsClient(list.win, clients);
      }
      next := list.next;
      k' := k + 1;
      if !found {
        k' := k;
        DeleteCurrent(list, k);
        OmitChanged(old(tasks), k, Refocused(old(tasks)[k], focus));
      }
      VisitedKeeps(old(tasks), k, focus, keep);
    }

    /** Deleting by window hits the current node when no earlier one has its window. */
    method DeleteCurrent(list: Node, ghost k: nat)
      requires Valid() && k < |nodes| && list == nodes[k] && forall j :: 0 <= j < k ==> tasks[j].win != tasks[k].win
      modifies this, repr
      ensures Valid() && repr == old(repr) && nodes == Omit(old(nodes), k) && Now() == old(Now()).(tasks := Omit(old(tasks), k))
    {
      IndexIsFirst(tasks, list.win, k);
      DelTask(list.win);
    }

    /** Offering every client a task. */
    method AddNew(x: Display, clients: seq<Window>)
      requires Valid()
      modifies this, repr
      ensures Valid() && fresh(repr - old(repr))
      ensures Now() == old(Now()).(tasks := Grown(old(tasks), x, old(myDesktop), clients, |clients|))
    {
      for i := 0 to |clients|
        invariant Valid() && fresh(repr - old(repr))
        invariant Now() == old(Now()).(tasks := Grown(old(tasks), x, old(myDesktop), clients, i))
      {
        IndexFinds(tasks, clients[i]);
        var found := FindTask(clients[i]);
        if found == null {
          AddTask(x, clients[i], clients[i] == x.focus);
        }
      }
    }

    method ReadClientlist(x: Display)
      requires Valid()
      modifies this, repr
      ensures Valid() && fresh(repr - old(repr)) && Now() == Reconciled(old(Now()), x)
    {
      var newDesk := x.desktop != myDesktop;
      if newDesk {
        myDesktop := x.desktop;
      }
      if x.clients.None? {
        return;
      }
      var clients := x.clients.value;
      RemoveStale(x.focus, clients, newDesk, Keep(old(Now()), x, clients));
      AddNew(x, clients);
    }

    // ----- Drawing -----

    method DrawTaskbar()
      requires Valid()
      modifies this`tasks, repr
      ensures Valid() && Now() == Drawn(screen, old(Now()))
    {
      var width, at := RoomFor(screen), LEFT;
      if numTasks == 0 {
        return;
      }
      var taskw := Truncated(width, numTasks);
      if taskw > MAX_TASK_WIDTH {
        taskw := MAX_TASK_WIDTH;
      }
      PlaceTasks(at, taskw);
    }

    /** The loop over the tasks. */
    method PlaceTasks(left: int, taskw: int)
      requires Valid()
      modifies this`tasks, repr
      ensures Valid() && |tasks| == |old(tasks)|
      ensures forall j :: 0 <= j < |tasks| ==> tasks[j] == old(tasks)[j].(posX := left + j * taskw, width := taskw - 1)
    {
      var at, tk := left, taskList;
      ghost var i: nat := 0;
      assert at == left + i * taskw;
      while tk != null
        invariant Valid() && |tasks| == |old(tasks)| && i <= |tasks| && at == left + i * taskw
        invariant tk == (if i < |nodes| then nodes[i] else null)
        invariant forall j :: 0 <= j < i ==> tasks[j] == old(tasks)[j].(posX := left + j * taskw, width := taskw - 1)
        invariant forall j :: i <= j < |tasks| ==> tasks[j] == old(tasks)[j]
        decreases |tasks| - i
      {
        SetPlace(tk, i, at, taskw - 1);
        at := at + taskw;
        tk := tk.next;
        i := i + 1;
        assert i * taskw == (i - 1) * taskw + taskw;
      }
    }

    /** Assign the position of one node. */
    method SetPlace(tk: Node, ghost k: nat, posX: int, width: int)
      requires Valid() && k < |nodes| && tk == nodes[k]
      modifies this`tasks, tk`posX, tk`width
      ensures Valid() && tasks == old(tasks)[k := old(tasks)[k].(posX := posX, width := width)]
    {
      tk.posX, tk.width := posX, width;
      tasks := tasks[k := tk.Shown()];
    }

    // ----- Events -----

    method HandlePress(x: int, y: int)
      requires Valid()
      modifies this, repr
      ensures Valid() && repr == old(repr) && Now() == Pressed(screen, old(Now()), x, y)
    {
      if y > 3 && y < WINHEIGHT - 3 {
        if x >= 50 && x < 50 + 9 {
          return;
        }
        if x >= 25 && x < 25 + 9 {
          return;
        }
      }
      if x < 6 {
        if hidden {
          hidden := false;
        } else {
          atTop := !atTop;
        }
        return;
      }
      if x + TEXTPAD > screen.width {
        hidden := !hidden;
        return;
      }
      PressTasks(x);
    }

    /** The loop over the tasks. */
    method PressTasks(x: int)
      requires Valid()
      modifies this`tasks, repr
      ensures Valid() && tasks == AllClicked(old(tasks), x)
    {
      var tk := taskList;
      ghost var i: nat := 0;
      while tk != null
        invariant Valid() && |tasks| == |old(tasks)| && i <= |tasks|
        invariant tk == (if i < |nodes| then nodes[i] else null)
        invariant forall j :: 0 <= j < |tasks| ==> tasks[j] == if j < i then Clicked(old(tasks)[j], x) else old(tasks)[j]
        decreases |tasks| - i
      {
        PressTask(tk, i, x);
        tk := tk.next;
        i := i + 1;
      }
    }

    /** One round of that loop. */
    method PressTask(tk: Node, ghost k: nat, x: int)
      requires Valid() && k < |nodes| && tk == nodes[k]
      modifies this`tasks, tk`focused, tk`iconified
      ensures Valid() && tasks == old(tasks)[k := Clicked(old(tasks)[k], x)]
    {
      if x > tk.posX && x < tk.posX + tk.width {
        if tk.iconified {
          SetFlags(tk, k, true, false);
        } else if tk.focused {
          SetFlags(tk, k, false, true);
        } else {
          SetFlags(tk, k, true, tk.iconified);
        }
      } else if tk.focused {
        SetFlags(tk, k, false, tk.iconified);
      }
    }

    method HandleFocusin(win: Window)
      requires Valid()
      modifies this`tasks, repr
      ensures Valid() && Now() == old(Now()).(tasks := AllRefocused(old(tasks), win))
    {
      var tk := taskList;
      ghost var i: nat := 0;
      while tk != null
        invariant Valid() && |tasks| == |old(tasks)| && i <= |tasks|
        invariant tk == (if i < |nodes| then nodes[i] else null)
        invariant forall j :: 0 <= j < |tasks| ==> tasks[j] == if j < i then Refocused(old(tasks)[j], win) else old(tasks)[j]
        decreases |tasks| - i
      {
        if tk.focused {
          if tk.win != win {
            SetFlags(tk, i, false, tk.iconified);
          }
        } else if tk.win == win {
          SetFlags(tk, i, true, tk.iconified);
        }
        tk := tk.next;
        i := i + 1;
      }
    }

    method HandlePropertyNotify(win: Window, property: Property, x: Display)
      requires Valid()
      modifies this, repr
      ensures Valid() && fresh(repr - old(repr)) && Now() == Notified(screen, old(Now()), win, property, x)
    {
      if win == screen.root {
        if ListChanged(screen, property) {
          ReadClientlist(x);
          DrawTaskbar();
        }
        return;
      }
      var tk := FindTask(win);
      if tk == null {
        return;
      }
      if property == WmState && (win in x.iconic) != tk.iconified {
        SetFlags(tk, Index(tasks, win), tk.focused, !tk.iconified);
      }
    }

    /** One event of the loop in main; DestroyNotify falls through to drawing. */
    method HandleEvent(e: Event)
      requires Valid()
      modifies this, repr
      ensures Valid() && fresh(repr - old(repr)) && Now() == Step(screen, old(Now()), e)
    {
      match e
      case Press(x, y) => HandlePress(x, y);
      case Destroy(win) =>
        DelTask(win);
        DrawTaskbar();
      case Expose => DrawTaskbar();
      case PropertyNotify(win, property, display) => HandlePropertyNotify(win, property, display);
      case FocusIn(win) => HandleFocusin(win);
      case OtherEvent =>
    }
  }

  /** The event loop from start-up on: at every moment the list on the heap is the
      one the run describes, with unique windows and at most one focused task. */
  method EventLoop(screen: Screen, events: seq<Event>) returns (bar: Taskbar)
    ensures bar.Valid() && bar.Now() == Run(screen, events, |events|) && Good(screen, bar.Now())
  {
    bar := new Taskbar(screen);
    for i := 0 to |events|
      invariant bar.Valid() && bar.screen == screen && fresh(bar) && fresh(bar.repr)
      invariant bar.Now() == Run(screen, events, i)
    {
      bar.HandleEvent(events[i]);
    }
    RunIsGood(screen, events, |events|);
  }
}
