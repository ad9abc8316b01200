/** Launching one batch instance per folder in auto_new_desktop_per_instance.py:
    the wait for the instance's window (`do_gui_stuff`), the desktop switch
    with its keystroke fallback and the registration of the new root
    (`process_folder`), and the sequential loop over the folders (`main`). */
module Launcher {
  import opened Common
  import opened ProcessTree
  import Provisioning
  import Placement

  type Hwnd = nat

  /** The launch wait enumerates the windows at most this many times. */
  const MaxPolls: nat := 100

  /** The stderr watcher's event as the launcher observes it. The launcher
      reads the event at its numbered checks (check `i` heads poll `i`, and
      the check after the loop is numbered by how many heads ran); once set
      the event stays set, so it is seen exactly from check `e` on when
      `errorFrom == Some(e)`. */
  predicate ErrorSeen(errorFrom: Option<nat>, check: nat) {
    errorFrom.Some? && errorFrom.value <= check
  }

  /** The smallest element: which handle `diff.pop()` returns is left to
      the set's hashing in the source, the model fixes one. */
  function Least(s: set<nat>): (m: nat)
    requires s != {}
    ensures m in s && forall x | x in s :: m <= x
  {
    HasLeast(s);
    var m :| m in s && forall x | x in s :: m <= x;
    m
  }

  lemma HasLeast(s: set<nat>)
    requires s != {}
    ensures exists m :: m in s && forall x | x in s :: m <= x
  {
    var x :| x in s;
    LeastBelow(s, x);
  }

  /** Descending from any element reaches a least one. */
  lemma {:induction false} LeastBelow(s: set<nat>, x: nat)
    requires x in s
    ensures exists m :: m in s && forall y | y in s :: m <= y
    decreases x
  {
    if forall y | y in s :: x <= y {
      assert x in s;
    } else {
      var y :| y in s && y < x;
      LeastBelow(s, y);
    }
  }

  /** The first poll at or after `i` whose enumeration shows a window that
      was not there before the launch (`MaxPolls` when there is none). */
  function FirstNew(original: set<Hwnd>, polls: seq<set<Hwnd>>, i: nat): (f: nat)
    requires i <= MaxPolls <= |polls|
    ensures i <= f <= MaxPolls
    ensures f < MaxPolls ==> polls[f] - original != {}
    ensures forall j | i <= j < f :: polls[j] - original == {}
    decreases MaxPolls - i
  {
    if i == MaxPolls then MaxPolls
    else if polls[i] - original != {} then i
    else FirstNew(original, polls, i + 1)
  }

  /** The number of the check made after the loop when no error stops the
      loop before poll `f`. */
  function FinalCheck(f: nat): nat {
    if f < MaxPolls then f + 1 else MaxPolls
  }

  /** How the polling loop ended: how many loop heads checked the event,
      how many enumerations ran, and the handle taken from the first
      non-empty difference, if any. */
  datatype Wait = Wait(checks: nat, enumerations: nat, found: Option<Hwnd>)

  /** The polling loop from poll `i` on; `polls[i]` is the set of visible
      windows with the tool's title that enumeration `i` returns. */
  function PollFrom(original: set<Hwnd>, polls: seq<set<Hwnd>>, errorFrom: Option<nat>, i: nat): (r: Wait)
    requires i <= MaxPolls <= |polls|
    ensures r.enumerations <= r.checks <= MaxPolls
    ensures r.found.Some? <==> FirstNew(original, polls, i) < MaxPolls && !ErrorSeen(errorFrom, FirstNew(original, polls, i))
    ensures r.found.Some? ==>
      && r.found.value == Least(polls[FirstNew(original, polls, i)] - original)
      && r.checks == FirstNew(original, polls, i) + 1
    ensures ErrorSeen(errorFrom, r.checks) <==> ErrorSeen(errorFrom, FinalCheck(FirstNew(original, polls, i)))
    decreases MaxPolls - i
  {
    if i == MaxPolls then Wait(MaxPolls, MaxPolls, None)
    else if ErrorSeen(errorFrom, i) then Wait(i + 1, i, None)
    else if polls[i] - original != {} then Wait(i + 1, i + 1, Some(Least(polls[i] - original)))
    else PollFrom(original, polls, errorFrom, i + 1)
  }

  /** How `do_gui_stuff` ends: the startup-error exception, the time-out
      exception, or the new window it goes on to fill in. */
  datatype Launch = StartupError | TimedOut | Launched(hwnd: Hwnd)

  /** The wait and its resolution: an error seen after the loop wins even
      over a window found; otherwise a missing (or zero, hence falsy)
      handle is a time-out. A startup error is reported exactly when the
      error is set by the check after the loop, whose number depends only on
      the first poll that shows a new window; an accepted window is new,
      non-zero, and from that first poll. */
  function LaunchWait(original: set<Hwnd>, polls: seq<set<Hwnd>>, errorFrom: Option<nat>): (r: Launch)
    requires MaxPolls <= |polls|
    ensures r == StartupError <==> ErrorSeen(errorFrom, FinalCheck(FirstNew(original, polls, 0)))
    ensures r.Launched? ==> r.hwnd !in original && r.hwnd != 0
    ensures r.Launched? ==>
      && FirstNew(original, polls, 0) < MaxPolls
      && r.hwnd in polls[FirstNew(original, polls, 0)]
      && !ErrorSeen(errorFrom, FirstNew(original, polls, 0) + 1)
  {
    var w := PollFrom(original, polls, errorFrom, 0);
    if ErrorSeen(errorFrom, w.checks) then StartupError
    else if w.found.None? || w.found.value == 0 then TimedOut
    else Launched(w.found.value)
  }

  /** The error wins over a window found: a poll that finds the new window
      is followed by the check after the loop, and an error set in between
      still kills the launch. */
  lemma ErrorBeatsFoundWindow(original: set<Hwnd>, polls: seq<set<Hwnd>>, f: nat)
    requires MaxPolls <= |polls|
    requires f < MaxPolls && polls[f] - original != {}
    requires forall j | 0 <= j < f :: polls[j] - original == {}
    ensures PollFrom(original, polls, Some(f + 1), 0).found.Some?
    ensures LaunchWait(original, polls, Some(f + 1)) == StartupError
  {
    FirstNewIsFirst(original, polls, f);
  }

  /** `FirstNew` is the first poll with a new window. */
  lemma {:induction false} FirstNewIsFirst(original: set<Hwnd>, polls: seq<set<Hwnd>>, f: nat)
    requires f < MaxPolls <= |polls|
    requires polls[f] - original != {}
    requires forall j | 0 <= j < f :: polls[j] - original == {}
    ensures FirstNew(original, polls, 0) == f
  {
  }

  /** With no window handle 0 in any enumeration, the launch times out
      exactly when no enumeration shows a new window and the error is not
      set by the last check. */
  lemma TimeoutIff(original: set<Hwnd>, polls: seq<set<Hwnd>>, errorFrom: Option<nat>)
    requires MaxPolls <= |polls|
    requires forall i | 0 <= i < MaxPolls :: 0 !in polls[i]
    ensures LaunchWait(original, polls, errorFrom) == TimedOut <==>
      (forall i | 0 <= i < MaxPolls :: polls[i] - original == {}) && !ErrorSeen(errorFrom, MaxPolls)
  {
    var f := FirstNew(original, polls, 0);
    if f < MaxPolls {
      var h := Least(polls[f] - original);
      assert h in polls[f];
      assert polls[f] - original != {};
    }
  }

  /** How `process_folder` switches to the folder's desktop: pyvda's `go()`
      on desktop index `index`, or `count` presses of Win+Ctrl+Right. */
  datatype Switch = GoTo(index: nat) | RightSteps(count: nat)

  /** `len(range(idx - current_desktop_idx))`. */
  function FallbackSteps(idx: nat, current: nat): (n: nat)
    ensures current <= idx ==> current + n == idx
    ensures idx <= current ==> n == 0
  {
    if idx <= current then 0 else idx - current
  }

  function SwitchFor(idx: nat, current: nat, goSucceeds: bool): Switch {
    if goSucceeds then GoTo(idx) else RightSteps(FallbackSteps(idx, current))
  }

  /** The desktop the system is on after a switch, among `n` desktops:
      Win+Ctrl+Right does nothing on the last one. */
  function AfterSwitch(sw: Switch, pos: nat, n: nat): (p: nat)
    requires pos < n
    requires sw.GoTo? ==> sw.index < n
    ensures p < n
  {
    match sw
    case GoTo(i) => i
    case RightSteps(k) => if pos + k < n then pos + k else n - 1
  }

  /** The supervisor's shared registry: the processes launched, the root
      pids and the desired desktop number per root. */
  datatype Registry = Registry(launched: seq<Pid>, roots: set<Pid>, table: map<Pid, nat>)

  const EmptyRegistry := Registry([], {}, map[])

  /** One call of `process_folder`: the switch, the new value of
      `current_desktop_idx`, the launch's end and the registry after it. */
  datatype FolderStep = FolderStep(switch: Switch, current: nat, launch: Launch, reg: Registry)

  function ProcessFolder(desktops: seq<nat>, idx: nat, current: nat, goSucceeds: bool,
                         launch: Launch, pid: Pid, reg: Registry): (r: FolderStep)
    requires idx < |desktops|
    ensures r.current == idx
    ensures r.launch.Launched? ==>
      && r.reg.launched == reg.launched + [pid]
      && r.reg.roots == reg.roots + {pid}
      && r.reg.table == reg.table[pid := desktops[idx]]
    ensures !r.launch.Launched? ==> r.reg == reg
  {
    var sw := SwitchFor(idx, current, goSucceeds);
    if launch.Launched? then
      FolderStep(sw, idx, launch, Registry(reg.launched + [pid], reg.roots + {pid}, reg.table[pid := desktops[idx]]))
    else FolderStep(sw, idx, launch, reg)
  }

  /** The loop of `main` over the folders: `goSucceeds[k]`, `launches[k]` and
      `pids[k]` are what the system does for folder `k`. A failed launch
      raises out of `main`, so the folders after it are never started. */
  datatype Run = Run(switches: seq<Switch>, reg: Registry, failedAt: Option<nat>)

  function RunFrom(desktops: seq<nat>, goSucceeds: seq<bool>, launches: seq<Launch>, pids: seq<Pid>,
                   k: nat, current: nat, reg: Registry): (r: Run)
    requires |goSucceeds| == |launches| == |pids| <= |desktops|
    requires k <= |pids|
    ensures k + |r.switches| <= |pids|
    ensures r.failedAt.Some? ==> k <= r.failedAt.value < |pids|
    decreases |pids| - k
  {
    if k == |pids| then Run([], reg, None)
    else
      var step := ProcessFolder(desktops, k, current, goSucceeds[k], launches[k], pids[k], reg);
      if step.launch.Launched? then
        var rest := RunFrom(desktops, goSucceeds, launches, pids, k + 1, step.current, step.reg);
        Run([step.switch] + rest.switches, rest.reg, rest.failedAt)
      else Run([step.switch], step.reg, Some(k))
  }

  function RunAll(desktops: seq<nat>, goSucceeds: seq<bool>, launches: seq<Launch>, pids: seq<Pid>): Run
    requires |goSucceeds| == |launches| == |pids| <= |desktops|
  {
    RunFrom(desktops, goSucceeds, launches, pids, 0, 0, EmptyRegistry)
  }

  /** The number of folders launched: all of them, or those before the
      first failed launch. */
  function LaunchedCount(r: Run, folders: nat): nat {
    if r.failedAt.Some? then r.failedAt.value else folders
  }

  /** The loop from folder `k` stops exactly at the first failed launch, and
      attempts one switch per folder up to and including that one. */
  lemma {:induction false} RunFromStops(desktops: seq<nat>, goSucceeds: seq<bool>, launches: seq<Launch>, pids: seq<Pid>,
                                        k: nat, current: nat, reg: Registry)
    requires |goSucceeds| == |launches| == |pids| <= |desktops|
    requires k <= |pids|
    ensures var r := RunFrom(desktops, goSucceeds, launches, pids, k, current, reg);
      var m := LaunchedCount(r, |pids|);
      && k <= m <= |pids|
      && (r.failedAt.Some? ==> m < |pids| && !launches[m].Launched?)
      && (forall j | k <= j < m :: launches[j].Launched?)
      && |r.switches| == (if r.failedAt.Some? then m + 1 else m) - k
    decreases |pids| - k
  {
    if k < |pids| {
      var step := ProcessFolder(desktops, k, current, goSucceeds[k], launches[k], pids[k], reg);
      if step.launch.Launched? {
        RunFromStops(desktops, goSucceeds, launches, pids, k + 1, step.current, step.reg);
      }
    }
  }

  /** The switch for each folder is taken with `current_desktop_idx` one
      behind the folder's index (0 for the first folder). */
  lemma {:induction false} RunFromSwitches(desktops: seq<nat>, goSucceeds: seq<bool>, launches: seq<Launch>, pids: seq<Pid>,
                                           k: nat, current: nat, reg: Registry)
    requires |goSucceeds| == |launches| == |pids| <= |desktops|
    requires k <= |pids|
    requires current == if k == 0 then 0 else k - 1
    ensures forall j | 0 <= j < |RunFrom(desktops, goSucceeds, launches, pids, k, current, reg).switches| ::
      RunFrom(desktops, goSucceeds, launches, pids, k, current, reg).switches[j] == SwitchFor(k + j, if k + j == 0 then 0 else k + j - 1, goSucceeds[k + j])
    decreases |pids| - k
  {
    if k < |pids| {
      var step := ProcessFolder(desktops, k, current, goSucceeds[k], launches[k], pids[k], reg);
      if step.launch.Launched? {
        RunFromSwitches(desktops, goSucceeds, launches, pids, k + 1, step.current, step.reg);
        var rest := RunFrom(desktops, goSucceeds, launches, pids, k + 1, step.current, step.reg);
        var r := RunFrom(desktops, goSucceeds, launches, pids, k, current, reg);
        assert r.switches == [step.switch] + rest.switches;
        forall j | 0 <= j < |r.switches|
          ensures r.switches[j] == SwitchFor(k + j, if k + j == 0 then 0 else k + j - 1, goSucceeds[k + j])
        {
          if j > 0 {
            assert r.switches[j] == rest.switches[j - 1];
            assert (k + 1) + (j - 1) == k + j;
          }
        }
      }
    }
  }

  /** The registry after the loop from folder `k`: the launched pids in
      order, the roots are the table's keys, and each root's desired desktop
      is its folder's desktop number (the last one for a pid launched twice). */
  lemma RunFromRegistry(desktops: seq<nat>, goSucceeds: seq<bool>, launches: seq<Launch>, pids: seq<Pid>,
                        k: nat, current: nat, reg: Registry)
    requires |goSucceeds| == |launches| == |pids| <= |desktops|
    requires k <= |pids|
    requires reg.launched == pids[..k] && reg.roots == reg.table.Keys
    requires reg.table == Provisioning.DesiredTable(pids[..k], desktops)
    ensures var r := RunFrom(desktops, goSucceeds, launches, pids, k, current, reg);
      var m := LaunchedCount(r, |pids|);
      && r.reg.launched == pids[..m]
      && r.reg.roots == r.reg.table.Keys
      && r.reg.table == Provisioning.DesiredTable(pids[..m], desktops)
  {
    assert reg == RegistryAfter(desktops, pids, k);
    RunFromRegistryAfter(desktops, goSucceeds, launches, pids, k, current, reg);
  }

  /** The registry `main` holds once the first `k` folders are launched. */
  function RegistryAfter(desktops: seq<nat>, pids: seq<Pid>, k: nat): Registry
    requires k <= |pids| <= |desktops|
  {
    var t := Provisioning.DesiredTable(pids[..k], desktops);
    Registry(pids[..k], t.Keys, t)
  }

  lemma {:induction false} RunFromRegistryAfter(desktops: seq<nat>, goSucceeds: seq<bool>, launches: seq<Launch>, pids: seq<Pid>,
                                                k: nat, current: nat, reg: Registry)
    requires |goSucceeds| == |launches| == |pids| <= |desktops|
    requires k <= |pids|
    requires reg == RegistryAfter(desktops, pids, k)
    ensures var r := RunFrom(desktops, goSucceeds, launches, pids, k, current, reg);
      r.reg == RegistryAfter(desktops, pids, LaunchedCount(r, |pids|))
    decreases |pids| - k
  {
    if k < |pids| {
      var step := ProcessFolder(desktops, k, current, goSucceeds[k], launches[k], pids[k], reg);
      if step.launch.Launched? {
        RegistryStep(desktops, pids, k, reg);
        assert step.reg == RegistryAfter(desktops, pids, k + 1);
        RunFromRegistryAfter(desktops, goSucceeds, launches, pids, k + 1, step.current, step.reg);
        var rest := RunFrom(desktops, goSucceeds, launches, pids, k + 1, step.current, step.reg);
        var r := RunFrom(desktops, goSucceeds, launches, pids, k, current, reg);
        assert r.reg == rest.reg && r.failedAt == rest.failedAt;
      }
    }
  }

  /** Registering the launch of folder `k` keeps the registry equal to the
      one built from the first `k + 1` pids. */
  lemma RegistryStep(desktops: seq<nat>, pids: seq<Pid>, k: nat, reg: Registry)
    requires k < |pids| <= |desktops|
    requires reg.launched == pids[..k] && reg.roots == reg.table.Keys
    requires reg.table == Provisioning.DesiredTable(pids[..k], desktops)
    ensures reg.launched + [pids[k]] == pids[..k + 1]
    ensures reg.roots + {pids[k]} == reg.table[pids[k] := desktops[k]].Keys
    ensures reg.table[pids[k] := desktops[k]] == Provisioning.DesiredTable(pids[..k + 1], desktops)
  {
    assert pids[..k + 1] == pids[..k] + [pids[k]];
    assert pids[..k + 1][..k] == pids[..k];
  }

  /** `main`'s loop launches the folders in order and stops at the first
      failed launch. */
  lemma RunAllStops(desktops: seq<nat>, goSucceeds: seq<bool>, launches: seq<Launch>, pids: seq<Pid>)
    requires |goSucceeds| == |launches| == |pids| <= |desktops|
    ensures LaunchedCount(RunAll(desktops, goSucceeds, launches, pids), |pids|) <= |pids|
    ensures forall j | 0 <= j < LaunchedCount(RunAll(desktops, goSucceeds, launches, pids), |pids|) :: launches[j].Launched?
    ensures RunAll(desktops, goSucceeds, launches, pids).failedAt.Some? ==>
      !launches[RunAll(desktops, goSucceeds, launches, pids).failedAt.value].Launched?
  {
    RunFromStops(desktops, goSucceeds, launches, pids, 0, 0, EmptyRegistry);
  }

  /** After `main`'s loop the root pids are exactly the launched pids, and
      with distinct pids the table sends each launched pid to its folder's
      desktop number. */
  lemma RunAllRegisters(desktops: seq<nat>, goSucceeds: seq<bool>, launches: seq<Launch>, pids: seq<Pid>)
    requires |goSucceeds| == |launches| == |pids| <= |desktops|
    requires forall i, j | 0 <= i < j < |pids| :: pids[i] != pids[j]
    ensures RunAll(desktops, goSucceeds, launches, pids).reg.roots == RunAll(desktops, goSucceeds, launches, pids).reg.table.Keys
    ensures RunAll(desktops, goSucceeds, launches, pids).reg.roots ==
      set j | 0 <= j < LaunchedCount(RunAll(desktops, goSucceeds, launches, pids), |pids|) :: pids[j]
    ensures forall j | 0 <= j < LaunchedCount(RunAll(desktops, goSucceeds, launches, pids), |pids|) ::
      RunAll(desktops, goSucceeds, launches, pids).reg.table[pids[j]] == desktops[j]
  {
    assert pids[..0] == [];
    RunFromRegistry(desktops, goSucceeds, launches, pids, 0, 0, EmptyRegistry);
    var r := RunAll(desktops, goSucceeds, launches, pids);
    var m := LaunchedCount(r, |pids|);
    var ps := pids[..m];
    assert r.reg.table == Provisioning.DesiredTable(ps, desktops);
    forall i, j | 0 <= i < j < |ps|
      ensures ps[i] != ps[j]
    {
      assert ps[i] == pids[i] && ps[j] == pids[j];
    }
    Provisioning.DesiredTableOfDistinct(ps, desktops);
    assert forall j | 0 <= j < m :: ps[j] == pids[j];
  }

  /** The real desktop before each launch, replaying the switches from
      position `pos`. */
  function Replay(switches: seq<Switch>, pos: nat, n: nat): (ps: seq<nat>)
    requires pos < n
    requires forall j | 0 <= j < |switches| :: switches[j].GoTo? ==> switches[j].index < n
    ensures |ps| == |switches|
    ensures forall j | 0 <= j < |ps| :: ps[j] < n
  {
    if switches == [] then []
    else
      var p := AfterSwitch(switches[0], pos, n);
      [p] + Replay(switches[1..], p, n)
  }

  /** The recorded index tracks the real desktop: starting on the first
      desktop (or with `go()` working for the first folder), folder `k + j`
      is launched on desktop index `k + j`, whichever `go()` calls fail. */
  lemma {:induction false} ReplayFollowsIndex(switches: seq<Switch>, goSucceeds: seq<bool>, k: nat, pos: nat, n: nat)
    requires k + |switches| <= |goSucceeds| && k + |switches| <= n
    requires pos < n
    requires forall j | 0 <= j < |switches| ::
      switches[j] == SwitchFor(k + j, if k + j == 0 then 0 else k + j - 1, goSucceeds[k + j])
    requires k == 0 ==> pos == 0 || (|switches| > 0 && goSucceeds[0])
    requires k > 0 ==> pos == k - 1
    ensures forall j | 0 <= j < |switches| :: switches[j].GoTo? ==> switches[j].index < n
    ensures forall j | 0 <= j < |switches| :: Replay(switches, pos, n)[j] == k + j
    decreases |switches|
  {
    assert forall j | 0 <= j < |switches| :: switches[j].GoTo? ==> switches[j].index == k + j;
    if switches != [] {
      var p := AfterSwitch(switches[0], pos, n);
      assert p == k;
      assert forall j | 0 <= j < |switches| - 1 :: switches[1..][j] == switches[j + 1];
      ReplayFollowsIndex(switches[1..], goSucceeds, k + 1, p, n);
      var ps := Replay(switches, pos, n);
      assert ps == [p] + Replay(switches[1..], p, n);
    }
  }

  /** `main`'s loop on `n` desktops, started on desktop index `start`:
      `current_desktop_idx` begins at 0 whatever desktop the session is on,
      so the instance for folder `j` is started on desktop index `j`, for
      every folder attempted, when the session starts on the first desktop
      or `go()` works for the first folder. */
  lemma RunAllLaunchesOnItsDesktop(desktops: seq<nat>, goSucceeds: seq<bool>, launches: seq<Launch>, pids: seq<Pid>, start: nat)
    requires |goSucceeds| == |launches| == |pids| <= |desktops|
    requires start < |desktops|
    requires start == 0 || |pids| == 0 || goSucceeds[0]
    ensures var sw := RunAll(desktops, goSucceeds, launches, pids).switches;
      && (forall j | 0 <= j < |sw| :: sw[j].GoTo? ==> sw[j].index < |desktops|)
      && forall j | 0 <= j < |sw| :: Replay(sw, start, |desktops|)[j] == j
  {
    var sw := RunAll(desktops, goSucceeds, launches, pids).switches;
    if |pids| > 0 {
      RunFromSwitches(desktops, goSucceeds, launches, pids, 0, 0, EmptyRegistry);
      RunFromStops(desktops, goSucceeds, launches, pids, 0, 0, EmptyRegistry);
      ReplayFollowsIndex(sw, goSucceeds, 0, start, |desktops|);
    } else {
      assert sw == [];
    }
  }

  /** The premise above is needed: started on desktop 1 of 3 with `go()`
      failing for the first folder, no key is pressed for it and the first
      instance is started on desktop 1, then `go()` puts the second one on
      desktop 1 as well. */
  lemma StartedElsewhereFirstLaunchMisplaced(launches: seq<Launch>, pids: seq<Pid>)
    requires |launches| == |pids| == 2 && launches[0].Launched? && launches[1].Launched?
    ensures var sw := RunAll([1, 2, 3], [false, true], launches, pids).switches;
      sw == [RightSteps(0), GoTo(1)] && Replay(sw, 1, 3) == [1, 1]
  {
    var ds, gs := [1, 2, 3], [false, true];
    var s0 := ProcessFolder(ds, 0, 0, false, launches[0], pids[0], EmptyRegistry);
    var s1 := ProcessFolder(ds, 1, s0.current, true, launches[1], pids[1], s0.reg);
    assert RunFrom(ds, gs, launches, pids, 2, s1.current, s1.reg).switches == [];
    assert RunFrom(ds, gs, launches, pids, 1, s0.current, s0.reg).switches == [GoTo(1)];
    var sw := RunAll(ds, gs, launches, pids).switches;
    assert sw == [RightSteps(0), GoTo(1)];
    assert Replay(sw[1..], 1, 3) == [1] + Replay([], 1, 3);
  }

  /** `main` in full: nothing happens without folders; otherwise the
      desktops are provisioned first (sorted by number) and the folders are
      launched in order. */
  datatype MainOutcome = NoFolders | Provisioning(created: nat) | Ran(desktops: seq<nat>, run: Run)

  function Main(queries: seq<seq<nat>>, goSucceeds: seq<bool>, launches: seq<Launch>, pids: seq<Pid>): (r: MainOutcome)
    requires |queries| > 0
    requires |goSucceeds| == |launches| == |pids|
    ensures |pids| == 0 <==> r.NoFolders?
    ensures r.Ran? ==> |r.desktops| >= |pids| && forall i, j | 0 <= i < j < |r.desktops| :: r.desktops[i] <= r.desktops[j]
  {
    if |pids| == 0 then NoFolders
    else match Provisioning.EnsureDesktops(|pids|, queries, true)
      case Waiting(c) => Provisioning(c)
      case Ready(ds, _) => Ran(ds, RunAll(ds, goSucceeds, launches, pids))
  }

  /** Composition with the enforcement pass: the configuration the
      enforcer reads once `main` has run is consistent (every root has a
      desired desktop that exists), so on a consistent snapshot every pass
      completes. */
  lemma MainFeedsACompletingEnforcer(queries: seq<seq<nat>>, goSucceeds: seq<bool>, launches: seq<Launch>, pids: seq<Pid>,
                                     treat: set<string>, s: Snapshot, ws: seq<Placement.Window>)
    requires |queries| > 0
    requires |goSucceeds| == |launches| == |pids|
    requires Main(queries, goSucceeds, launches, pids).Ran?
    requires IdleIsOwnParent(s) && forall i | 0 <= i < |pids| :: pids[i] != 0
    ensures var m := Main(queries, goSucceeds, launches, pids);
      var cfg := Placement.Config(treat, m.run.reg.roots, m.run.reg.table, m.desktops);
      && Placement.TargetsExist(cfg)
      && cfg.table.Keys == cfg.roots
      && Placement.Pass(s, cfg, ws).end == Placement.Completed
  {
    var m := Main(queries, goSucceeds, launches, pids);
    var ds := m.desktops;
    assert pids[..0] == [];
    RunFromStops(ds, goSucceeds, launches, pids, 0, 0, EmptyRegistry);
    RunFromRegistry(ds, goSucceeds, launches, pids, 0, 0, EmptyRegistry);
    var n := LaunchedCount(m.run, |pids|);
    var cfg := Placement.Config(treat, m.run.reg.roots, m.run.reg.table, ds);
    var nv := Provisioning.NewVariantConfig(treat, pids[..n], ds);
    assert cfg == nv;
    assert 0 !in cfg.roots by {
      assert forall j | 0 <= j < n :: pids[..n][j] == pids[j];
    }
    Placement.PassNeverFails(s, cfg, ws);
  }
}
