# Verified models of the OpenSLX mltk components

A Dafny model of the small programs in this repository whose behaviour is hard to
see from the code alone, with proofs about every input, every run or every
reachable state. Each `.dfy` file is one module and follows one component:

| file | component |
|---|---|
| `ModuleWalk.dfy` | the recursive module walk of `core/bin/setup_target` |
| `PanelModel.dfy`, `PanelRuns.dfy`, `TaskList.dfy` | the task list of fspanel: its meaning, what each event does in every reachable state, and the linked nodes on the heap |
| `ShellQuote.dfy` | `escapeShellArg` and the command line built from it in `winres.c` |
| `PasswordCodec.dfy`, `GuestAgent.dfy`, `AgentRuns.dfy` | the bytes and the protocol between `pw_daemon.c` and `winres.c`, the timer-driven agent around it, and what each message does in every reachable state |
| `Tokens.dfy` | the in-place tokenizer of `winres.c` |
| `Screens.dfy` | the multi-screen check of `winres.c` |
| `DmiParser.dfy` | the dmidecode parser |
| `Firewall.dfy` | the rule compiler of `set-firewall.py` |
| `RateLimiter.dfy` | the rate limiter of kmsgwatch |
| `Cidr.dfy` | prefix matching in `update-doh-list.php` |
| `CpuTopology.dfy` | CPU topology parsing and vCPU pinning of the QEMU plugin |
| `VersionCompare.dfy` | `versioncompare.inc` |
| `Bits.dfy` | bytes and bit operations on integers |

Code that updates things in place is modelled as such: the task list is a linked
list of heap nodes, the agent, the firewall manager, the rate limiter and the target
build are classes, buffers are arrays, loops are loops. Every such method is proved
equal to a function of the old state, and the theorems over runs are about those
functions. What comes from outside (the clock, the network, X and Win32 answers,
`iptables`, `inet_pton`, UTF-8 conversion, lines already classified as blank, handle
or text) is a parameter. `dafny verify dfyconfig.toml` checks the whole project.

## Main results

- **Module walk.** For every graph, cycles included, the walk ends and copies nothing
  twice. For names without `!` it succeeds exactly when every module reachable from the
  request can be built, and then runs `post_copy` for exactly the reachable modules, in
  the order requested and, within a module, in the order its dependencies are listed; a
  dependency comes before its dependent unless the two lie on a cycle
  (`ModuleWalk.TargetBuild.GenerateTarget`).
- **Task list.** After every sequence of events the linked list is the one the pure
  run describes, no window has two tasks, `num_tasks` is the length, at most one task
  is focused, no point of the panel belongs to two tasks, and a click on a task
  reaches that task and no control. `PanelRuns` states what every kind of event does in
  every reachable state. Reconciling yields the survivors in old order and
  then the newly visible windows in client order. Deleting while iterating is sound:
  every node already passed belongs to a client, so the deleted window's first node
  is the current one, and this does not even need unique windows.
- **Guest agent.** Over every run with lost, duplicated and reordered replies: a
  password the guest holds is the daemon's, done flags never revert, at most one
  launch and none after the wipe, a connected drive is never mounted again, the mount
  phase ends within 15 entered ticks; a launched command line splits into exactly user
  and password if and only if both fit as described; some run hangs if and only if the
  password reaches the guest and the quoting does not return on it. `AgentRuns` states
  what every kind of message does in every reachable state: which drives are tried and
  connected, when a phase ends, when a script is launched, when the password is wiped.
- **Quoting.** `escapeShellArg` returns if and only if the opening quote and the body
  fit; clipped output reads back if and only if nothing or exactly the whole closing
  part is missing; `params` splits into the two strings.
- **Parser.** Printing a dmidecode document with well-formed properties and parsing it
  returns the document if and only if only last sections of a handle lack properties and
  only last properties of a section lack both value and items.
- **Firewall.** The compiled chain pair gives each packet the verdict of the first
  matching specific rule, else of the first matching wildcard rule.
- **Rate limiter.** Ring and unbounded log make the same decision except in one exactly
  described and reachable corner; where the code departs from its documented rule is
  stated exactly; no 900 s window holds more than 100 accepted messages.
- **CIDR.** The byte-and-mask test is agreement of the integer values after division by a
  power of two, for every prefix, and the preprocessed list is the disjunction of the
  simple tests.

## Where code and promise differ

The model follows the code; each difference below is a lemma.

- kmsgwatch documents "at most 2 times among the last 5"; the code ignores entries older
  than 900 s, so the same text can be sent any number of times in a row
  (`RateLimiter.OldTextMayRepeat`). The duplicate loop also reads the oldest slot, which
  makes the ring stricter than a log in one case that a run reaches
  (`RateLimiter.RingAgreesWithLog`, `RateLimiter.CornerIsReached`). When code and comment
  differ is `RateLimiter.CodeAgainstDocumented` for one call and
  `RateLimiter.RunKeepsDocumented` for a run.
- `apply_iptables` names `runvirt-OUT` and `runvirt-IN`, `setup_chains` creates
  `runvirt-OUTPUT` and `runvirt-INPUT` (`Firewall.ChainExists`). The verdict theorems take
  the chain pair that the rules are appended to.
- `pw_daemon.c:350` casts before shifting, so the high length byte is always 0; the
  receive buffer has 200 bytes. The guest reads passwords of up to 198 bytes and never
  accepts a longer one (`PasswordCodec.ReplyRoundTrip`).
- `escapeShellArg` stops advancing when its buffer is full. It returns exactly under the
  condition of `ShellQuote.LoopEnds`; `GuestAgent.HangsWhen` says which credentials hang
  the agent, and `GuestAgent.LongPasswordHangs` names some that the daemon can deliver.
- `getToken` trims a field that is not followed by a separator from one character too
  early (`Tokens.OpenToken` for exactly when that matters, `Tokens.OpenTokenIsCut`).
- A screen at x = -1 is taken for an already matched one (`Screens.MarkerScreenPasses`).
- A module name containing `!` can hide other names from the visited test, and can be
  claimed visited itself (`ModuleWalk.VisitedTestNeedsPlainNames`).
- A section without properties makes the parser read the next section's name as a
  property. Without a colon in it that raises an exception
  (`DmiParser.EmptySectionBreaksNext`), otherwise the section is lost
  (`DmiParser.GapLosesSection`); `DmiParser.DocumentRoundTrip` is exact.
- A property without value and items is forgotten when another one follows it in its
  section (`DmiParser.DocumentRead`).
- A CPU range ending at 2147483647 makes the reading loop wrap around and never end
  (`CpuTopology.RangeLoopEnds`).

## Model

| member | source | states |
|---|---|---|
| `ModuleWalk.ContainsConcat` | core/bin/setup_target:489-491 | an occurrence of `!name!` never straddles the seam between two marks |
| `ModuleWalk.VisitedTestExact` | core/bin/setup_target:489-491 | for a queried name without `!` and any names added so far, the substring test is true exactly when one added mark contains the mark asked for |
| `ModuleWalk.VisitedTest` | core/bin/setup_target:489-491 | on names without `!` the string is a set: the test is true exactly for the names added |
| `ModuleWalk.AddedIsFound` | core/bin/setup_target:489-491 | a name that was added is always found, whatever the names contain |
| `ModuleWalk.VisitedTestNeedsPlainNames` | core/bin/setup_target:489-491 | a `!` on either side misleads the test: after `a!b` it claims `a`, after `a` and `b` it claims `a!!b` |
| `ModuleWalk.FewerLeft` | core/bin/setup_target:489-491 | marking before recursing strictly shrinks the set of unmarked modules, the measure that ends the recursion on cycles |
| `ModuleWalk.SettledTrans` | core/bin/setup_target:538-542 | what one dependency's walk settles stays settled through the next one's |
| `ModuleWalk.SettledFinish` | core/bin/setup_target:600-602 | running post_copy of a module after its dependencies keeps every ordering promise of the enclosing walk |
| `ModuleWalk.DependencyFinished` | core/bin/setup_target:540-542 | without cycles, a processed dependency leaves everything it reaches copied |
| `ModuleWalk.NextDependency` | core/bin/setup_target:540-542 | one more dependency adds exactly what it reaches, after what the earlier ones reach |
| `ModuleWalk.WalkIsComplete` | core/bin/setup_target:451-453 | a settled walk that marked all roots has copied exactly the reachable modules, each once, dependencies first or on a cycle |
| `ModuleWalk.DoneNext` | core/bin/setup_target:451-453 | one more requested module adds exactly what it reaches, after what the earlier ones reach |
| `ModuleWalk.TargetBuild.constructor` | core/bin/setup_target:489-491 | starts with an empty visited string and nothing copied |
| `ModuleWalk.TargetBuild.ProcessModule` | core/bin/setup_target:477-602 | on any graph and any names: ends, touches only modules reachable from the module, and fails only when a reachable one cannot be built; for names without `!` success marks the module and settles everything newly marked; without cycles the module is copied last, after its dependencies in the order listed |
| `ModuleWalk.TargetBuild.BuildMarked` | core/bin/setup_target:494-602 | the same for the part after marking, in terms of the state before it |
| `ModuleWalk.TargetBuild.ProcessRequired` | core/bin/setup_target:537-546 | the dependency loop marks every dependency and settles all newly marked modules; without cycles, for every j, what the first j dependencies reach is copied before anything newly reached from a later one |
| `ModuleWalk.TargetBuild.ProcessDependency` | core/bin/setup_target:540-542 | one recursive call inside that loop keeps what the loop has settled |
| `ModuleWalk.TargetBuild.GenerateTarget` | core/bin/setup_target:431-453 | for any names nothing is copied twice, nothing unreachable is copied, a missing requested module means an error with nothing copied, and an error has an unbuildable reachable module; for names without `!` it succeeds exactly when all reachable modules have a name, a directory and where needed a version, copied is then exactly the reachable set, for every k what the first k requested modules reach comes first, and on acyclic graphs dependencies come before dependents and in the order listed |
| `ModuleWalk.TargetBuild.ProcessAll` | core/bin/setup_target:451-453 | the loop over the requested modules marks only reachable ones and, for names without `!`, settles all of them, in the order requested |
| `PanelModel.IndexIsFirst` | core/modules/fspanel/fspanel/fspanel.c:748-760 | a position with the window and none before it is the one the search finds |
| `PanelModel.IndexFinds` | core/modules/fspanel/fspanel/fspanel.c:748-760 | the search succeeds exactly when the window has a task |
| `PanelModel.WithoutRemoves` | core/modules/fspanel/fspanel/fspanel.c:761-791 | with unique windows, deletion removes exactly the tasks of that window |
| `PanelModel.KeptMembers` | core/modules/fspanel/fspanel/fspanel.c:819-834 | the removal pass keeps exactly the tasks of listed clients, with refreshed focus |
| `PanelModel.GrownHas` | core/modules/fspanel/fspanel/fspanel.c:836-841 | after offering n clients a window has a task exactly when it had one or is a visible client among them |
| `PanelModel.GrownAppends` | core/modules/fspanel/fspanel/fspanel.c:836-841 | the adding pass appends each new visible client once, in client order, whatever duplicates the client list has |
| `PanelModel.Reconciliation` | core/modules/fspanel/fspanel/fspanel.c:793-844 | the list becomes survivors in old order then newcomers in client order, without duplicates, focused exactly at the input focus; no survivors after a desktop change |
| `PanelModel.ReconciledWindows` | core/modules/fspanel/fspanel/fspanel.c:793-844 | a window has a task afterwards exactly when it is a client and visible, or a client that had a task on the unchanged desktop |
| `PanelModel.HitsDisjoint` | core/modules/fspanel/fspanel/fspanel.c:708-729 | in a drawn layout no point is inside two tasks, for any screen width and number of tasks |
| `PanelModel.LeftOfClockWhen` | core/modules/fspanel/fspanel/fspanel.c:708-729 | all tasks end before the clock exactly when the computed width is at least -1, or there is at most one task, or two and the width is -2 |
| `PanelModel.ClickedIsGood` | core/modules/fspanel/fspanel/fspanel.c:935-971 | a click keeps at most one focused task, because at most one is hit |
| `PanelModel.ReconciledIsGood` | core/modules/fspanel/fspanel/fspanel.c:1006-1027 | reading the client list and drawing keeps all invariants, also when the list is unavailable |
| `PanelModel.StepKeepsGood` | core/modules/fspanel/fspanel/fspanel.c:1130-1155 | every event keeps unique windows, at most one focused task and the layout |
| `PanelModel.RunIsGood` | core/modules/fspanel/fspanel/fspanel.c:1130-1155 | every state reachable by any events has unique windows, at most one focused task and every task in place |
| `PanelModel.RunHitsDisjoint` | core/modules/fspanel/fspanel/fspanel.c:935-939 | in every reachable state no click is on two tasks |
| `PanelModel.RunClickReachesTask` | core/modules/fspanel/fspanel/fspanel.c:896-971 | in every reachable state a click on a task is caught by no arrow or grill, toggles that task as focus and iconic state say, and unfocuses all others |
| `PanelModel.RunShowsClients` | core/modules/fspanel/fspanel/fspanel.c:1006-1027 | after any run, a client list notification leaves exactly the visible clients and, on an unchanged desktop, clients that had a task |
| `PanelRuns.RunDestroys` | core/modules/fspanel/fspanel/fspanel.c:1139-1144 | in every reachable state a destroyed window loses its task; all others stay as they are, in order |
| `PanelRuns.RunFocuses` | core/modules/fspanel/fspanel/fspanel.c:974-999 | in every reachable state a focus event leaves exactly the task of that window focused and nothing else changed |
| `PanelRuns.RunIconifies` | core/modules/fspanel/fspanel/fspanel.c:1040-1047 | in every reachable state a WM_STATE change makes the window's task iconified exactly when the server says so, and changes nothing else |
| `PanelRuns.RunIgnores` | core/modules/fspanel/fspanel/fspanel.c:1006-1057 | redrawing and all other property changes leave the panel as it is |
| `PanelRuns.RunPresses` | core/modules/fspanel/fspanel/fspanel.c:896-971 | in every reachable state arrows change nothing, the left grill shows or moves the panel, the right grill hides or shows it, and a click beside all tasks takes the focus away |
| `PanelRuns.RunWithoutClients` | core/modules/fspanel/fspanel/fspanel.c:800-817 | without a client list only the desktop is taken over |
| `PanelRuns.RunReconciles` | core/modules/fspanel/fspanel/fspanel.c:793-844 | after a client list change the desktop is current, focus is the input focus, an old task keeps its iconic state and a new one has the one the server reports |
| `PanelRuns.RunShowsVisible` | core/modules/fspanel/fspanel/fspanel.c:793-844 | which windows have a task after a client list change, with EWMH and desktop visibility spelled out |
| `PanelRuns.RunLayout` | core/modules/fspanel/fspanel/fspanel.c:708-729 | in every reachable state the tasks stand side by side from 80 on, equally wide, at most 145, and as wide as the room allows |
| `TaskList.FinishedIsKept` | core/modules/fspanel/fspanel/fspanel.c:819-834 | deleting node by node during the walk amounts to filtering the old list |
| `TaskList.Taskbar.constructor` | core/modules/fspanel/fspanel/fspanel.c:486-489 | the zeroed taskbar is an empty valid list on desktop 0 |
| `TaskList.Taskbar.FindTask` | core/modules/fspanel/fspanel/fspanel.c:748-760 | returns the first node of the window, or null exactly when there is none |
| `TaskList.Taskbar.AddTask` | core/modules/fspanel/fspanel/fspanel.c:347-387 | links a new node behind the last one for a visible window and changes nothing otherwise; count and links stay consistent |
| `TaskList.Taskbar.DelTask` | core/modules/fspanel/fspanel/fspanel.c:761-791 | unlinks exactly the first node of the window; all other nodes stay linked in order |
| `TaskList.Taskbar.IsClient` | core/modules/fspanel/fspanel/fspanel.c:826-829 | the backward search finds exactly the windows in the client list |
| `TaskList.Taskbar.Visit` | core/modules/fspanel/fspanel/fspanel.c:821-834 | one round: refreshes focus, deletes the current node or keeps it, and continues at the node that followed it |
| `TaskList.Taskbar.RemoveStale` | core/modules/fspanel/fspanel/fspanel.c:819-834 | the walk that deletes under itself leaves the filtered list, on any list, unique windows or not |
| `TaskList.Taskbar.AddNew` | core/modules/fspanel/fspanel/fspanel.c:836-841 | the adding loop yields the list grown client by client |
| `TaskList.Taskbar.ReadClientlist` | core/modules/fspanel/fspanel/fspanel.c:793-844 | the linked list becomes the reconciled list; without a client list only the desktop changes |
| `TaskList.Taskbar.DrawTaskbar` | core/modules/fspanel/fspanel/fspanel.c:697-729 | every node gets its place in the layout, nothing else changes, and no division by zero occurs |
| `TaskList.Taskbar.HandlePress` | core/modules/fspanel/fspanel/fspanel.c:896-972 | arrows leave the panel alone, grills move or hide it, any other click updates all tasks by hit, focus and iconic state |
| `TaskList.Taskbar.HandleFocusin` | core/modules/fspanel/fspanel/fspanel.c:974-999 | exactly the tasks of the window are focused afterwards |
| `TaskList.Taskbar.HandlePropertyNotify` | core/modules/fspanel/fspanel/fspanel.c:1001-1057 | root notifications reconcile and draw, state notifications set the iconic flag of the window's task |
| `TaskList.Taskbar.HandleEvent` | core/modules/fspanel/fspanel/fspanel.c:1130-1155 | the heap list after an event is the step function of the list before |
| `TaskList.EventLoop` | core/modules/fspanel/fspanel/fspanel.c:1130-1155 | after any events the heap list is valid, equals the pure run and satisfies all invariants |
| `ShellQuote.SplitBody` | core/modules/run-virt/winres/src/winres.c:591-611 | reading an escaped body inside quotes restores the text and leaves its trailing backslashes pending |
| `ShellQuote.SplitEscaped` | core/modules/run-virt/winres/src/winres.c:590-614 | reading an escaped text up to its closing quote gives back the text |
| `ShellQuote.CommandLineRoundTrip` | core/modules/run-virt/winres/src/winres.c:285-296 | two quoted strings with a space split into exactly these two, one into exactly itself |
| `ShellQuote.ClippedIsBody` | core/modules/run-virt/winres/src/winres.c:598-615 | output that runs out of room after the body is the body and part of the doubled backslashes |
| `ShellQuote.ClippedRoundTrip` | core/modules/run-virt/winres/src/winres.c:597-615 | output with room for the body reads back exactly when everything fits or only the body does |
| `ShellQuote.CopyRun` | core/modules/run-virt/winres/src/winres.c:592-596 | the inner loop moves a backslash run to the output without changing what remains to be written |
| `ShellQuote.PutBackslashes` | core/modules/run-virt/winres/src/winres.c:598-600 | appends as many doubled backslashes as fit |
| `ShellQuote.PutChar` | core/modules/run-virt/winres/src/winres.c:605-610 | appends the character, escaped if it is a quote, when there is room |
| `ShellQuote.EscapePass` | core/modules/run-virt/winres/src/winres.c:591-611 | a pass with room consumes input and keeps output plus remaining body equal to the whole body |
| `ShellQuote.EscapeBody` | core/modules/run-virt/winres/src/winres.c:591-611 | the outer loop writes the body and as many trailing doubled backslashes as fit, nothing outside its bounds |
| `ShellQuote.CloseArg` | core/modules/run-virt/winres/src/winres.c:612-616 | adds the closing quote if there is room, and the NUL |
| `ShellQuote.EscapeShellArg` | core/modules/run-virt/winres/src/winres.c:583-617 | writes the quoted text clipped to its room, NUL-terminated, and nothing outside its bounds |
| `ShellQuote.RoomyParams` | core/modules/run-virt/winres/src/winres.c:286-291 | with room for both, the parameters are the two quoted strings and split into exactly them |
| `ShellQuote.ParamsRoundTrip` | core/modules/run-virt/winres/src/winres.c:286-291 | whenever the calls return, the parameters split into exactly user and password if and only if the user fits in full and the password fits in full or loses exactly its closing part |
| `ShellQuote.BuildParams` | core/modules/run-virt/winres/src/winres.c:285-291 | the two calls stay inside the 200 characters and the result splits into user and password exactly when both can be read from it |
| `ShellQuote.PassProgress` | core/modules/run-virt/winres/src/winres.c:591-611 | a pass makes progress if the rest fits and otherwise ends in a state that still does not fit |
| `ShellQuote.LoopEnds` | core/modules/run-virt/winres/src/winres.c:591-611 | the loop ends if and only if the opening quote and the body fit |
| `ShellQuote.CallsReturnWhen` | core/modules/run-virt/winres/src/winres.c:286-291 | both calls come back exactly when each loop that is entered ends in its own room |
| `ShellQuote.LongPasswordSpins` | core/modules/run-virt/winres/src/winres.c:583-617 | for every user that leaves room, a password of plain characters at least as long as that room makes the second call never return |
| `PasswordCodec.HexRoundTrip` | core/modules/run-virt/winres/src/winres.c:1667-1686 | bytes of any length survive hex printing and parsing |
| `PasswordCodec.HexAt` | core/modules/run-virt/pw_daemon.c:363-366 | byte i is written as two lower-case digits, the high half first |
| `PasswordCodec.CapitalDigitValue` | core/modules/run-virt/winres/src/winres.c:1667-1674 | capital digits are read with their value too |
| `PasswordCodec.Bin2Hex` | core/modules/run-virt/pw_daemon.c:358-369 | fills the buffer with the hex digits of the bytes and a NUL |
| `PasswordCodec.UnhexAt` | core/modules/run-virt/winres/src/winres.c:1682-1684 | byte i comes from digits 2i and 2i+1, an odd last digit is ignored |
| `PasswordCodec.Hex2Bin` | core/modules/run-virt/winres/src/winres.c:1676-1686 | parses the digits, with the code's own value for other characters |
| `PasswordCodec.XoredTwice` | core/modules/run-virt/winres/src/winres.c:1655-1665 | the key stream is its own inverse on texts of any length |
| `PasswordCodec.EncodeReply` | core/modules/run-virt/pw_daemon.c:343-356 | the buffer is the length prefix and the password under the key stream |
| `PasswordCodec.ReplyBits` | core/modules/run-virt/pw_daemon.c:343-356 | on the wire each password byte has exactly the bits flipped that its key byte has set; the length bytes are 0 and the length modulo 256 |
| `PasswordCodec.HighByteIsZero` | core/modules/run-virt/pw_daemon.c:350-350 | the high length byte is 0 for every length |
| `PasswordCodec.GuestReadsWhen` | core/modules/run-virt/winres/src/winres.c:1389-1395 | a datagram is taken for a password exactly when it has 2 to 200 bytes and its length field fits, and each byte has the bits of its key byte flipped |
| `PasswordCodec.ReplyRoundTrip` | core/modules/run-virt/winres/src/winres.c:1384-1398 | the guest reads the daemon's password for up to 198 bytes and nothing for longer ones |
| `GuestAgent.KeysSurvive` | core/modules/run-virt/pw_daemon.c:299-313 | keys handed over as hex text are the daemon's keys, so the request equals key1 |
| `GuestAgent.RoundKeeps` | core/modules/run-virt/winres/src/winres.c:1577-1618 | a mount round never tries a connected drive and keeps the record of tries consistent |
| `GuestAgent.MountTickKeeps` | core/modules/run-virt/winres/src/winres.c:192-236 | a mount tick keeps the invariant, in particular the bound on entered ticks |
| `GuestAgent.ScriptTickKeeps` | core/modules/run-virt/winres/src/winres.c:261-343 | a script tick keeps the invariant, in particular the single launch |
| `GuestAgent.UdpReceivedKeeps` | core/modules/run-virt/winres/src/winres.c:1384-1398 | any reply the daemon ever sent, however late or repeated, leaves the guest with the daemon's password or none |
| `GuestAgent.WipeCheckKeeps` | core/modules/run-virt/winres/src/winres.c:557-563 | the wipe happens only with both done flags and keeps the invariant |
| `GuestAgent.StepKeeps` | core/modules/run-virt/winres/src/winres.c:554-564 | every event of guest, daemon or network keeps the invariant |
| `GuestAgent.RunKeeps` | core/modules/run-virt/winres/src/winres.c:554-564 | every reachable state: password truthful, at most one launch, phases bounded, no drive mounted twice |
| `GuestAgent.LaunchedCommandLine` | core/modules/run-virt/winres/src/winres.c:274-338 | in every run a launched command line splits into the user and the daemon's password exactly when both can be read from the parameters |
| `GuestAgent.HangsWhen` | core/modules/run-virt/winres/src/winres.c:274-291 | some run hangs in launchRunscript exactly when the password has at most 198 bytes, both credentials convert and escapeShellArg does not return on them |
| `GuestAgent.LongPasswordHangs` | core/modules/run-virt/winres/src/winres.c:274-291 | a password of 198 letters, which the guest accepts, hangs it in some run for a one-letter user |
| `GuestAgent.RunGoesOn` | core/modules/run-virt/winres/src/winres.c:554-564 | along every run flags never revert, nothing is launched after the script is done or the wipe, connected drives stay connected |
| `AgentRuns.RoundConnects` | core/modules/run-virt/winres/src/winres.c:1577-1618 | a mount round connects exactly the drives that can be connected and are no printers, or printers from the fifth round on, and tries exactly the unconnected ones that are due, in order |
| `AgentRuns.RunTickMounts` | core/modules/run-virt/winres/src/winres.c:205-222 | in every reachable state with a password a mount tick performs such a round, and the phase ends exactly when all drives are connected, after 30 s, or with the 15th attempt |
| `AgentRuns.RunTickAsks` | core/modules/run-virt/winres/src/winres.c:205-222 | without a password it sends the key as far as the socket allows and gives up exactly with the tenth attempt |
| `AgentRuns.RunTickWithoutShares` | core/modules/run-virt/winres/src/winres.c:199-222 | without a share file the first mount tick ends the phase |
| `AgentRuns.RunScriptLaunches` | core/modules/run-virt/winres/src/winres.c:274-338 | in every reachable state with usable credentials a script tick launches exactly one script, whose parameters split into user and password exactly when both can be read from them |
| `AgentRuns.RunScriptFails` | core/modules/run-virt/winres/src/winres.c:274-343 | without usable credentials a script tick counts a failure and launches nothing; the 13th failure ends the phase |
| `AgentRuns.RunScriptDoneReason` | core/modules/run-virt/winres/src/winres.c:337-342 | in every run with a script timer the script is done only after one launch or 13 failures |
| `AgentRuns.RunAnswers` | core/modules/run-virt/pw_daemon.c:409-418 | the daemon answers exactly the requests that begin with its first key, whoever sends them |
| `AgentRuns.RunReceives` | core/modules/run-virt/winres/src/winres.c:1384-1398 | a reply that reaches the open socket installs a password of up to 198 bytes, closes the socket and performs a round; a longer one changes nothing |
| `AgentRuns.RunWipes` | core/modules/run-virt/winres/src/winres.c:557-563 | after every handled message, once both phases are done no password is left in memory |
| `GuestAgent.MountOne` | core/modules/run-virt/winres/src/winres.c:1594-1614 | a connected drive is skipped, an early printer put off, any other drive tried once |
| `GuestAgent.MountDrives` | core/modules/run-virt/winres/src/winres.c:1588-1617 | the loop performs one round on all drives and counts 0 exactly when all are connected |
| `GuestAgent.Agent.constructor` | core/modules/run-virt/winres/src/winres.c:496-543 | timers that could not be set count as done from the start |
| `GuestAgent.Agent.MountNetworkShares` | core/modules/run-virt/winres/src/winres.c:1577-1618 | performs a round when there are shares and a password; true exactly when nothing is left to mount |
| `GuestAgent.Agent.QueryPasswordDaemon` | core/modules/run-virt/winres/src/winres.c:1345-1382 | returns 0 exactly when no password is needed, otherwise the code of the step that failed or -1, and sends the request as far as the socket calls succeed |
| `GuestAgent.Agent.SetupNetworkDrives` | core/modules/run-virt/winres/src/winres.c:192-236 | a mount tick: retry counters, time limit and done flag as the tick function says |
| `GuestAgent.Agent.TryOnce` | core/modules/run-virt/winres/src/winres.c:205-216 | one attempt: ask for the password with limit 10, or mount with limit 15 and 30 s |
| `GuestAgent.Agent.LaunchRunscript` | core/modules/run-virt/winres/src/winres.c:261-343 | a script tick: launch once with the quoted credentials, hang, or count a failure up to 12 |
| `GuestAgent.Agent.ReceiveUdp` | core/modules/run-virt/winres/src/winres.c:1384-1398 | a datagram is dropped, or its password installed, the socket closed and a round performed |
| `GuestAgent.Agent.DispatchMessage` | core/modules/run-virt/winres/src/winres.c:554-564 | one message and the wipe check are the dispatch function of the state before |
| `Tokens.TerminatedToken` | core/modules/run-virt/winres/src/winres.c:1198-1223 | a field followed by a separator is returned stripped, or raw without trimming |
| `Tokens.OpenToken` | core/modules/run-virt/winres/src/winres.c:1213-1218 | an unterminated field is stripped exactly unless one of its last two characters is a space and the other not |
| `Tokens.OpenTokenIsCut` | core/modules/run-virt/winres/src/winres.c:1213-1218 | the unterminated field `ab c` is returned as `ab` |
| `Tokens.LineTokens` | core/modules/run-virt/winres/src/winres.c:1263-1279 | the k-th call on a terminated line gives field k, stripped or raw, and NULL after the last |
| `Tokens.SkipSpaces` | core/modules/run-virt/winres/src/winres.c:1201-1205 | blanks exactly the leading spaces |
| `Tokens.FindEnd` | core/modules/run-virt/winres/src/winres.c:1206-1212 | overwrites the first separator and points behind it, or stops at the end |
| `Tokens.TrimEnd` | core/modules/run-virt/winres/src/winres.c:1213-1218 | blanks exactly the trailing spaces it looks at |
| `Tokens.AfterCall` | core/modules/run-virt/winres/src/winres.c:1198-1223 | after a call the buffer holds the token and the rest as C strings, all else untouched |
| `Tokens.GetToken` | core/modules/run-virt/winres/src/winres.c:1198-1223 | returns NULL exactly on an empty text, otherwise the token's place, and leaves the described buffer |
| `Tokens.CallReads` | core/modules/run-virt/winres/src/winres.c:1263-1279 | the k-th call returns the k-th token and leaves the rest for the next |
| `Tokens.ReadTokens` | core/modules/run-virt/winres/src/winres.c:1263-1279 | repeated calls return all tokens in order, and earlier pointers stay intact while later tokens are cut |
| `Screens.OffsetsIncrease` | core/modules/run-virt/winres/src/winres.c:793-796 | with widths of at least 320 the offsets grow by at least 320 per screen |
| `Screens.NextMatches` | core/modules/run-virt/winres/src/winres.c:804-818 | one more screen can be matched exactly when some unmarked slot fits it |
| `Screens.MarkSlot` | core/modules/run-virt/winres/src/winres.c:807-811 | the -1 marker accounts for exactly the matched screen |
| `Screens.FindSlot` | core/modules/run-virt/winres/src/winres.c:805-813 | finds and marks a fitting slot, or changes nothing when there is none |
| `Screens.MatchOne` | core/modules/run-virt/winres/src/winres.c:804-818 | one screen is found exactly when the screens so far can still be matched with it, and then its slot is marked |
| `Screens.ExpectedOffsets` | core/modules/run-virt/winres/src/winres.c:791-796 | fills the array with the cumulative widths |
| `Screens.MatchScreens` | core/modules/run-virt/winres/src/winres.c:797-819 | succeeds exactly when the active screens can be matched, and marks exactly their slots |
| `Screens.AllMarked` | core/modules/run-virt/winres/src/winres.c:820-828 | 0 exactly when every expected screen was seen |
| `Screens.IsResolutionFine` | core/modules/run-virt/winres/src/winres.c:790-828 | 0 exactly when the screens not at -1 are a permutation of the expected ones and each at -1 follows one of its size |
| `Screens.AcceptedIsMatching` | core/modules/run-virt/winres/src/winres.c:790-828 | acceptance is greedy matching of every screen plus every expected screen being seen |
| `Screens.AcceptedIsPermutation` | core/modules/run-virt/winres/src/winres.c:790-828 | without a screen at -1, acceptance is equality as multisets of (offset, width, height) |
| `Screens.EdgeToEdge` | core/modules/run-virt/winres/src/winres.c:790-828 | screens of the expected sizes laid edge to edge from 0 on are accepted |
| `Screens.ActiveScreens` | core/modules/run-virt/winres/src/winres.c:797-803 | the active screens are the connected ones with a width, in order |
| `Screens.MarkerScreenPasses` | core/modules/run-virt/winres/src/winres.c:806-813 | a second screen at -1 passes although only one screen is expected |
| `DmiParser.Parse` | core/modules/hardware-stats/data/opt/openslx/hardware-stats/dmiparser.py:92-162 | the loop over its local variables computes the sections of the step-by-step run, or raises |
| `DmiParser.PropLineSplits` | core/modules/hardware-stats/data/opt/openslx/hardware-stats/dmiparser.py:130-130 | splitting a printed property line at its first colon and stripping gives back key and value |
| `DmiParser.ItemsRun` | core/modules/hardware-stats/data/opt/openslx/hardware-stats/dmiparser.py:150-162 | item lines are collected up to the first line with less indent, then the property is complete |
| `DmiParser.PropRun` | core/modules/hardware-stats/data/opt/openslx/hardware-stats/dmiparser.py:129-162 | a printed property is added to its section, also when its flush is delayed to the next section |
| `DmiParser.BarePropLineStep` | core/modules/hardware-stats/data/opt/openslx/hardware-stats/dmiparser.py:131-148 | a property without value and items before another one is left pending and overwritten |
| `DmiParser.PropsRun` | core/modules/hardware-stats/data/opt/openslx/hardware-stats/dmiparser.py:129-162 | all printed properties of a section are added in order |
| `DmiParser.DistinctProps` | core/modules/hardware-stats/data/opt/openslx/hardware-stats/dmiparser.py:66-67 | with distinct keys the dictionary is the list of properties in order |
| `DmiParser.PutReplaces` | core/modules/hardware-stats/data/opt/openslx/hardware-stats/dmiparser.py:66-67 | a repeated key keeps its place and gets the new values |
| `DmiParser.SectionRun` | core/modules/hardware-stats/data/opt/openslx/hardware-stats/dmiparser.py:101-148 | a printed section is read back with its handle, name and properties |
| `DmiParser.SectionsRun` | core/modules/hardware-stats/data/opt/openslx/hardware-stats/dmiparser.py:101-148 | so are all sections of a handle |
| `DmiParser.BlocksRun` | core/modules/hardware-stats/data/opt/openslx/hardware-stats/dmiparser.py:100-162 | a printed document is read back from any state that may precede a handle |
| `DmiParser.PreambleRun` | core/modules/hardware-stats/data/opt/openslx/hardware-stats/dmiparser.py:112-162 | text before the first handle has no effect |
| `DmiParser.DocumentRead` | core/modules/hardware-stats/data/opt/openslx/hardware-stats/dmiparser.py:92-162 | without such gaps exactly the properties without value and items that are not the last of their section are lost |
| `DmiParser.RunCounts` | core/modules/hardware-stats/data/opt/openslx/hardware-stats/dmiparser.py:100-162 | a run ends with at most one section per unindented line, and with fewer once such a line follows another or is read inside a section |
| `DmiParser.GapLosesSection` | core/modules/hardware-stats/data/opt/openslx/hardware-stats/dmiparser.py:122-148 | after a gap the parser raises or returns fewer sections than were printed, whatever the names and properties are |
| `DmiParser.DocumentRoundTrip` | core/modules/hardware-stats/data/opt/openslx/hardware-stats/dmiparser.py:92-162 | for every document with stripped texts and distinct keys, text before the first handle included: parsing what was printed returns exactly its sections, handles and values if and only if no section without properties is followed by another one of its handle and no property without value and items by another one of its section |
| `DmiParser.EmptySectionBreaksNext` | core/modules/hardware-stats/data/opt/openslx/hardware-stats/dmiparser.py:129-130 | a name without a colon right after a section without properties raises |
| `Firewall.AppendWalk` | core/modules/run-virt/data/opt/openslx/vmchooser/scripts/set-firewall.py:467-473 | leaving out an entry that the check finds never changes a verdict |
| `Firewall.EntriesMeanRule` | core/modules/run-virt/data/opt/openslx/vmchooser/scripts/set-firewall.py:446-494 | the tcp, udp and reset entries of a rule hit exactly the packets of the rule, with its verdict |
| `Firewall.CompiledWalk` | core/modules/run-virt/data/opt/openslx/vmchooser/scripts/set-firewall.py:331-382 | each chain answers as before, else with the first hit among the rules of its kind |
| `Firewall.CompiledMeaning` | core/modules/run-virt/data/opt/openslx/vmchooser/scripts/set-firewall.py:180-190 | the compiled pair gives loopback packets acceptance and others the first specific, else first wildcard, rule |
| `Firewall.DecidingRule` | core/modules/run-virt/data/opt/openslx/vmchooser/scripts/set-firewall.py:331-382 | the compiled chains answer with the first specific rule whose direction, network and port concern the packet, else with the first such wildcard rule, and refuse tcp with a reset |
| `Firewall.DedupFirstHit` | core/modules/run-virt/data/opt/openslx/vmchooser/scripts/set-firewall.py:317-322 | dropping repeated rules keeps the first hit of every packet |
| `Firewall.FirewallVerdict` | core/modules/run-virt/data/opt/openslx/vmchooser/scripts/set-firewall.py:314-382 | the chains compiled from the gathered rules give every packet the verdict the full rule lists mean |
| `Firewall.DnsServerAllowed` | core/modules/run-virt/data/opt/openslx/vmchooser/scripts/set-firewall.py:418-420 | a tcp or udp packet to port 53 of a configured DNS server that no specific rule hits is accepted |
| `Firewall.BlockAllIsFirst` | core/modules/run-virt/data/opt/openslx/vmchooser/scripts/set-firewall.py:356-367 | block_all is decided by the first wildcard rule and undecided without one |
| `Firewall.ChainExists` | core/modules/run-virt/data/opt/openslx/vmchooser/scripts/set-firewall.py:435-438 | the chain name used exists exactly for the directions INPUT and OUTPUT and, for wildcards, their -sub forms |
| `Firewall.FirewallManager.constructor` | core/modules/run-virt/data/opt/openslx/vmchooser/scripts/set-firewall.py:156-192 | all four chain pairs start with loopback acceptance and the jump to the sub-chain |
| `Firewall.FirewallManager.CheckAppend` | core/modules/run-virt/data/opt/openslx/vmchooser/scripts/set-firewall.py:468-473 | appends one entry to one chain unless it is there |
| `Firewall.FirewallManager.ApplyIptables` | core/modules/run-virt/data/opt/openslx/vmchooser/scripts/set-firewall.py:433-494 | changes exactly the pair of the tool and direction, by the entries of the rule |
| `Firewall.FirewallManager.ProcessRule` | core/modules/run-virt/data/opt/openslx/vmchooser/scripts/set-firewall.py:331-382 | applies a rule to the tools of its address family, a wildcard to both; the first wildcard decides block_all |
| `Firewall.FirewallManager.GatherRules` | core/modules/run-virt/data/opt/openslx/vmchooser/scripts/set-firewall.py:316-324 | automatic rules without repetitions, then the remote ones |
| `Firewall.FirewallManager.ApplyRules` | core/modules/run-virt/data/opt/openslx/vmchooser/scripts/set-firewall.py:331-382 | the loop compiles all rules into all chains and lets the first wildcard decide block_all |
| `Firewall.FirewallManager.AllowDns` | core/modules/run-virt/data/opt/openslx/vmchooser/scripts/set-firewall.py:418-420 | compiles one accepting rule for port 53 per DNS server into the chain of its family |
| `Firewall.FirewallManager.ProcessRules` | core/modules/run-virt/data/opt/openslx/vmchooser/scripts/set-firewall.py:314-420 | all chains are compiled from the gathered rules and, with a DNS configuration, the DNS server rules, and give every packet the verdict these lists mean; DNS servers stay reachable unless a specific rule says otherwise |
| `RateLimiter.SlotIsProbe` | core/modules/kmsgwatch/src/kmsgwatch.go:81-83 | the i-th slot read is the oldest of 100 for i = 0 and the i-th newest message otherwise, or unwritten |
| `RateLimiter.RecordKeepsRing` | core/modules/kmsgwatch/src/kmsgwatch.go:97-101 | writing slot count mod 100 keeps the ring equal to the last 100 of the log |
| `RateLimiter.Limiter.constructor` | core/modules/kmsgwatch/src/kmsgwatch.go:53-63 | the zeroed ring stands for an empty log |
| `RateLimiter.Limiter.Allow` | core/modules/kmsgwatch/src/kmsgwatch.go:66-103 | decides as the log-based rule and records exactly accepted messages |
| `RateLimiter.RingAgreesWithLog` | core/modules/kmsgwatch/src/kmsgwatch.go:73-95 | with a non-decreasing clock the ring never allows what the code's rules on an unbounded log forbid and agrees exactly outside one corner |
| `RateLimiter.CodeAgainstDocumented` | core/modules/kmsgwatch/src/kmsgwatch.go:53-95 | the code departs from the documented rule in exactly two ways: it sends when two of the newest four have the text but fewer than two matches are at most 900 s old, and it drops when only one has it and the oldest of 100 has it at exactly 900 s |
| `RateLimiter.Serve` | core/modules/kmsgwatch/src/kmsgwatch.go:194-206 | the reader loop sends exactly the accepted messages of the run |
| `RateLimiter.RunIsLimited` | core/modules/kmsgwatch/src/kmsgwatch.go:66-103 | over every run, messages 100 apart are at least 900 s apart and three equal ones among five span more than 900 s |
| `RateLimiter.RunKeepsDocumented` | core/modules/kmsgwatch/src/kmsgwatch.go:53-55 | a run keeps "at most 2 of 5" exactly when no text comes back a third time within five accepted messages after more than 900 s |
| `RateLimiter.SpacedFitsWindow` | core/modules/kmsgwatch/src/kmsgwatch.go:53-55 | spacing of messages 100 apart bounds every 900 s window by 100 |
| `RateLimiter.WindowHoldsAtMost100` | core/modules/kmsgwatch/src/kmsgwatch.go:53-55 | no half-open 900 s window of any run holds more than 100 accepted messages |
| `RateLimiter.OldTextMayRepeat` | core/modules/kmsgwatch/src/kmsgwatch.go:55-55 | three equal messages in a row are accepted when more than 900 s apart |
| `RateLimiter.CornerIsReached` | core/modules/kmsgwatch/src/kmsgwatch.go:81-95 | a run of 100 messages reaches the corner: the next one is dropped though log and documented rule allow it |
| `Cidr.TestIsSamePrefix` | core/modules/run-virt/update-doh-list.php:120-145 | the byte-and-mask test holds exactly when the big-endian values agree after division by 2^(8 len - p) |
| `Cidr.IpInCidr` | core/modules/run-virt/update-doh-list.php:100-146 | true exactly when both addresses parse, have one family and share the prefix |
| `Cidr.LoadCidrs` | core/modules/run-virt/update-doh-list.php:151-213 | one record per usable line of the file and of the built-in list, in order |
| `Cidr.IpMatchesCidrs` | core/modules/run-virt/update-doh-list.php:218-265 | true exactly when some record matches |
| `Cidr.RecordIsLine` | core/modules/run-virt/update-doh-list.php:183-209 | a preprocessed record matches exactly the addresses of its line |
| `Cidr.RecordsMatchLines` | core/modules/run-virt/update-doh-list.php:171-210 | some record of a file matches exactly when some line of it holds the address by the simple test |
| `Cidr.BuiltinHolds` | core/modules/run-virt/update-doh-list.php:156-168 | the built-in ranges hold exactly the loopback, private, link-local, unspecified, broadcast, unique local and multicast addresses, given byte by byte |
| `Cidr.Excluded` | core/modules/run-virt/update-doh-list.php:218-265 | for any file, preprocessing and matching exclude exactly the addresses that some line of the file holds or that are special |
| `CpuTopology.SplitOfJoin` | core/modules/qemu/runvirt-plugin-qemu/src/main/java/org/openslx/runvirt/plugin/qemu/cmdln/CommandLineArgs.java:296-308 | Java's split undoes joining when the last part is not empty |
| `CpuTopology.RangeLoopEnds` | core/modules/qemu/runvirt-plugin-qemu/src/main/java/org/openslx/runvirt/plugin/qemu/cmdln/CommandLineArgs.java:320-322 | the 32-bit loop over a range ends exactly when the range ends below the largest int |
| `CpuTopology.GetThreads` | core/modules/qemu/runvirt-plugin-qemu/src/main/java/org/openslx/runvirt/plugin/qemu/cmdln/CommandLineArgs.java:307-322 | one element yields its range, nothing when malformed, or a loop without end when it ends at the largest int |
| `CpuTopology.ParsedRange` | core/modules/qemu/runvirt-plugin-qemu/src/main/java/org/openslx/runvirt/plugin/qemu/cmdln/CommandLineArgs.java:314-322 | whatever is read from an element is a non-empty run of consecutive numbers below the largest int |
| `CpuTopology.RefusedElements` | core/modules/qemu/runvirt-plugin-qemu/src/main/java/org/openslx/runvirt/plugin/qemu/cmdln/CommandLineArgs.java:294-319 | ranges the wrong way round and empty elements, groups and arguments are refused |
| `CpuTopology.BadGroupSpoils` | core/modules/qemu/runvirt-plugin-qemu/src/main/java/org/openslx/runvirt/plugin/qemu/cmdln/CommandLineArgs.java:298-324 | one group that cannot be read spoils the whole argument |
| `CpuTopology.GetGroup` | core/modules/qemu/runvirt-plugin-qemu/src/main/java/org/openslx/runvirt/plugin/qemu/cmdln/CommandLineArgs.java:303-323 | a group yields the concatenated ranges, or the outcome of the first element that gives none |
| `CpuTopology.GetCpuTopology` | core/modules/qemu/runvirt-plugin-qemu/src/main/java/org/openslx/runvirt/plugin/qemu/cmdln/CommandLineArgs.java:291-326 | the argument yields its groups, nothing when empty or malformed, or a loop without end, whichever element comes first |
| `CpuTopology.TopologyRoundTrip` | core/modules/qemu/runvirt-plugin-qemu/src/main/java/org/openslx/runvirt/plugin/qemu/cmdln/CommandLineArgs.java:291-326 | every topology of non-empty groups, written with numbers and ranges, is read back exactly when no element ends at the largest int; otherwise reading never ends |
| `CpuTopology.DomainConfig.Transform` | core/modules/qemu/runvirt-plugin-qemu/src/main/java/org/openslx/runvirt/plugin/qemu/configuration/TransformationGenericCpu.java:60-111 | fails exactly without a CPU count or with an empty topology, otherwise sets cores, threads, vCPUs and pins consistently |
| `CpuTopology.Configure` | core/modules/qemu/runvirt-plugin-qemu/src/main/java/org/openslx/runvirt/plugin/qemu/configuration/TransformationGenericCpu.java:60-111 | reading the argument and transforming gives cores, threads, vCPUs and pins of the parsed topology; a missing or malformed one gives numCpus cores with one thread and no pins |
| `CpuTopology.FindUneven` | core/modules/qemu/runvirt-plugin-qemu/src/main/java/org/openslx/runvirt/plugin/qemu/configuration/TransformationGenericCpu.java:76-83 | true exactly when two groups differ in size |
| `CpuTopology.AddPins` | core/modules/qemu/runvirt-plugin-qemu/src/main/java/org/openslx/runvirt/plugin/qemu/configuration/TransformationGenericCpu.java:101-110 | guest ids are 0, 1, ... over the chosen host CPUs in order |
| `CpuTopology.EvenHosts` | core/modules/qemu/runvirt-plugin-qemu/src/main/java/org/openslx/runvirt/plugin/qemu/configuration/TransformationGenericCpu.java:101-110 | with groups of size T, guest g is pinned to member g mod T of group g div T |
| `CpuTopology.SharedCoreIsSharedGroup` | core/modules/qemu/runvirt-plugin-qemu/src/main/java/org/openslx/runvirt/plugin/qemu/configuration/TransformationGenericCpu.java:87-110 | with T threads per core, guests share a virtual core exactly when their host threads come from the same group |
| `CpuTopology.WrittenTopologyPins` | core/modules/qemu/runvirt-plugin-qemu/src/main/java/org/openslx/runvirt/plugin/qemu/configuration/TransformationGenericCpu.java:69-110 | from the written argument to the pins: guest g runs on number g mod T of written group g div T |
| `CpuTopology.UnevenHosts` | core/modules/qemu/runvirt-plugin-qemu/src/main/java/org/openslx/runvirt/plugin/qemu/configuration/TransformationGenericCpu.java:101-110 | with unequal groups the hosts are exactly the first members in order |
| `CpuTopology.PinsMatchVcpus` | core/modules/qemu/runvirt-plugin-qemu/src/main/java/org/openslx/runvirt/plugin/qemu/configuration/TransformationGenericCpu.java:87-110 | there are as many pins as vCPUs exactly when the groups have one size or none is empty |
| `VersionCompare.TotalPreorder` | core/includes/versioncompare.inc:4-27 | 1 one way is 2 the other way, 0 exactly when equal up to trailing zeros, transitive, strictly so if one step is strict |
| `VersionCompare.SameIsTrimmedEqual` | core/includes/versioncompare.inc:10-18 | zero padding identifies exactly the lists equal up to trailing zeros |
| `VersionCompare.CompareCases` | core/includes/versioncompare.inc:19-26 | the three results are greater, less and equal, mutually exclusive |
| `VersionCompare.FirstDifferenceDecides` | core/includes/versioncompare.inc:14-25 | the first components that differ decide, whatever follows them |
| `VersionCompare.LongerIsGreater` | core/includes/versioncompare.inc:10-18 | a missing component counts as zero |
| `VersionCompare.Compared` | core/includes/versioncompare.inc:4-27 | the padding and scanning loops compute the zero-padded lexicographic comparison |
| `VersionCompare.VersionGe` | core/includes/versioncompare.inc:29-34 | succeeds exactly when greater or equal up to trailing zeros |
| `VersionCompare.VersionLe` | core/includes/versioncompare.inc:36-41 | succeeds exactly when less or equal up to trailing zeros |
| `VersionCompare.VersionGt` | core/includes/versioncompare.inc:43-48 | succeeds exactly when greater |
| `VersionCompare.VersionLt` | core/includes/versioncompare.inc:50-55 | succeeds exactly when less |
| `VersionCompare.VersionEq` | core/includes/versioncompare.inc:57-60 | succeeds exactly when equal up to trailing zeros |

## Left out

- The rest of the build system: chroot mounts, package managers, downloads, file copying, md5 and flag files, `clean_module`; they are input and output.
- `process_module_init` may repeat modules and `scan_target` has no cycle guard; neither carries a harder claim than `process_module`.
- ModuleWalk.TargetBuild.ProcessModule: a graph is read once; a module whose config changes while the build runs, and build hooks that end the build, are not modelled.
- ModuleWalk.VisitedTestExact: a queried name with `!`, which can span several marks, is covered only by ModuleWalk.AddedIsFound and the examples of ModuleWalk.VisitedTestNeedsPlainNames.
- X11 drawing, icons, window titles and property reads of fspanel; the server's answers are parameters of each event. `switch_desk` only sends a request, which is not recorded.
- TaskList.Taskbar.DelTask: a deleted node is unlinked; freeing its memory is not modelled.
- Win32 registry, shortcuts, sound, display changes, message boxes and the shared-folder fallback in `winres.c`; every dispatched message is atomic.
- GuestAgent.Agent.LaunchRunscript: one launch stands for the scripts in `B:\adminrun` and the legacy one, with the credentials passed; scripts that get only the user are covered by ShellQuote.CommandLineRoundTrip. UTF-8 conversion is a parameter.
- GuestAgent.MountOne: the two mount calls, with and without the DNS replacement, are one attempt whose outcome is a parameter; stripping trailing slashes from paths is left out.
- PasswordCodec.ReplyRoundTrip: a datagram longer than the receive buffer is an error of `recv`, as Winsock documents.
- `pw_daemon.c` outside the key and reply encoding and the responder loop: ports, sockets, privileges, random keys.
- Tokens.GetToken: the `doDup` copy is left out; the token is its place in the buffer.
- Screens.IsResolutionFine: the single-screen branch for old Windows versions and the reading of the resolutions; `int` offsets are unbounded.
- DmiParser.Parse: the pattern that reads a handle line and the split of the text into lines; a line arrives as blank, handle, rejected handle, or tabs and text, so a section name is taken to be a non-empty line that begins neither with a tab nor with `Handle`. Python's `isspace` is modelled for the characters up to U+00A0.
- Firewall.FirewallManager.ProcessRules: hostname rules, DNS configuration lines and redirections, the monitor loop with its `front` option, and the DoH entries, which go to the front of `runvirt-OUTPUT` itself; destinations are addresses or `*`. A failing `iptables` call is not modelled.
- RateLimiter.Limiter.Allow: the mutex makes calls sequential; the counter is unbounded, and the clock reads later than 900 s after the zero time.
- Cidr.LoadCidrs: `array_unique` is left out, it changes no match; `inet_pton` is a parameter. Prefixes outside the address length follow the code's loops on bytes that exist.
- CpuTopology.GetThreads: a Java loop without end would stop with an exhausted heap; that is not modelled.
- CpuTopology.DomainConfig.Transform: other libvirt transformations and settings without further logic.
- VersionCompare.Compared: versions are lists of numbers; splitting the text at `.`, `-` and `_`, the shortcut for equal texts and 64-bit wrap-around are left out.
- `parse-edid`, brightness, USB patching, rdns, xprintidle, greeters and hardware JSON collection: fixed-size decoding or plumbing.
