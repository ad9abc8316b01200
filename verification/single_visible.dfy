/** keep_track_of_batch_instances.py: launch a few instances, then keep one
    instance's windows visible at a time. Each pass lists the tool windows
    (visible, of a tracked process, with a treated title) and every visible
    window of every tracked pid, and reacts to each tool window according to
    what it remembers about that `(hwnd, pid)` key. */
module SingleVisible {
  import opened Common
  import opened ProcessTree

  type Hwnd = nat

  /** A top-level window in enumeration order. `pidKnown` is false when
      asking for its process raises, in which case both enumerations skip
      it. */
  datatype TopWindow = TopWindow(hwnd: Hwnd, pid: Pid, title: string, visible: bool, pidKnown: bool)

  /** A window both enumerations list: visible, with a readable pid that is
      tracked. */
  predicate Listed(w: TopWindow, tracked: set<Pid>) {
    w.visible && w.pidKnown && w.pid in tracked
  }

  /** `(hwnd, pid, title)` as `enum_tool_windows` reports it. */
  datatype Tool = Tool(hwnd: Hwnd, pid: Pid, title: string)

  function ToolOf(w: TopWindow): Tool {
    Tool(w.hwnd, w.pid, w.title)
  }

  /** The selection test of `enum_tool_windows`, as a value `Filter` can take. */
  function Treated(tracked: set<Pid>, treat: set<string>): TopWindow -> bool
  {
    w => Listed(w, tracked) && w.title in treat
  }

  function ToolsOf(ws: seq<TopWindow>): (r: seq<Tool>)
    ensures |r| == |ws| && forall i | 0 <= i < |ws| :: r[i] == ToolOf(ws[i])
  {
    seq(|ws|, i requires 0 <= i < |ws| => ToolOf(ws[i]))
  }

  /** `enum_tool_windows`: the listed windows whose title is treated, in
      enumeration order: the list comprehension over the enumeration. */
  function ToolWindows(ws: seq<TopWindow>, tracked: set<Pid>, treat: set<string>): (r: seq<Tool>)
    ensures |r| <= |ws|
    ensures forall t | t in r :: exists w | w in ws :: Listed(w, tracked) && w.title in treat && t == ToolOf(w)
    ensures forall w | w in ws && Listed(w, tracked) && w.title in treat :: ToolOf(w) in r
  {
    if ws == [] then []
    else
      var rest := ToolWindows(ws[1..], tracked, treat);
      assert forall w | w in ws[1..] :: w in ws;
      if Listed(ws[0], tracked) && ws[0].title in treat then [ToolOf(ws[0])] + rest else rest
  }

  /** The tool list keeps the enumeration order: it is the order-preserving
      filter of the enumerated windows, each mapped to its tool entry. */
  lemma {:induction false} ToolWindowsInOrder(ws: seq<TopWindow>, tracked: set<Pid>, treat: set<string>)
    ensures ToolWindows(ws, tracked, treat) == ToolsOf(Filter(ws, Treated(tracked, treat)))
  {
    if ws != [] {
      ToolWindowsInOrder(ws[1..], tracked, treat);
      ToolsOfFilterStep(ws, Treated(tracked, treat));
    }
  }

  /** Order, stated without a filter: the tools of an enumeration are the
      tools of its first part followed by those of the rest, so a window
      enumerated earlier never has its tool listed after a later one's. */
  lemma {:induction false} ToolWindowsAppend(a: seq<TopWindow>, b: seq<TopWindow>, tracked: set<Pid>, treat: set<string>)
    ensures ToolWindows(a + b, tracked, treat) == ToolWindows(a, tracked, treat) + ToolWindows(b, tracked, treat)
  {
    if a != [] {
      assert (a + b)[1..] == a[1..] + b;
      ToolWindowsAppend(a[1..], b, tracked, treat);
    } else {
      assert a + b == b;
    }
  }

  /** Filtering then taking tools, one window at a time. */
  lemma ToolsOfFilterStep(ws: seq<TopWindow>, p: TopWindow -> bool)
    requires ws != []
    ensures ToolsOf(Filter(ws, p)) == (if p(ws[0]) then [ToolOf(ws[0])] else []) + ToolsOf(Filter(ws[1..], p))
  {
    var head: seq<TopWindow> := if p(ws[0]) then [ws[0]] else [];
    FilterCons(ws, p);
    ToolsOfAppend(head, Filter(ws[1..], p));
  }

  lemma ToolsOfAppend(a: seq<TopWindow>, b: seq<TopWindow>)
    ensures ToolsOf(a + b) == ToolsOf(a) + ToolsOf(b)
  {
  }

  /** `enum_all_windows`: the handles of the listed windows grouped by their
      own (leaf) pid, each group in enumeration order. */
  function AllWindows(ws: seq<TopWindow>, tracked: set<Pid>): (r: map<Pid, seq<Hwnd>>)
    ensures forall p | p in r :: |r[p]| > 0
    ensures forall p, h | p in r && h in r[p] :: exists w | w in ws :: Listed(w, tracked) && w.pid == p && w.hwnd == h
    ensures forall w | w in ws && Listed(w, tracked) :: w.pid in r && w.hwnd in r[w.pid]
  {
    if ws == [] then map[]
    else
      var n := |ws| - 1;
      var m := AllWindows(ws[..n], tracked);
      assert forall w | w in ws[..n] :: w in ws;
      assert forall w | w in ws :: w in ws[..n] || w == ws[n];
      var w := ws[n];
      if Listed(w, tracked) then m[w.pid := (if w.pid in m then m[w.pid] else []) + [w.hwnd]] else m
  }

  /** What the screen shows: which windows are minimized (a window missing
      from the map is not), and the window last brought to the front. */
  datatype Screen = Screen(minimized: map<Hwnd, bool>, front: Option<Hwnd>)

  predicate Iconic(sc: Screen, h: Hwnd) {
    h in sc.minimized && sc.minimized[h]
  }

  /** `ShowWindow` with `SW_MINIMIZE` (`v`) or `SW_RESTORE` (`!v`) on every
      window in `hs`. */
  function SetMinimized(sc: Screen, hs: set<Hwnd>, v: bool): (r: Screen)
    ensures r.front == sc.front
    ensures forall h | h in hs :: Iconic(r, h) == v
    ensures forall h | h !in hs :: Iconic(r, h) == Iconic(sc, h)
  {
    Screen(map h | h in sc.minimized.Keys + hs :: if h in hs then v else sc.minimized[h], sc.front)
  }

  function Elems(s: seq<Hwnd>): set<Hwnd> {
    set h | h in s
  }

  /** The windows of `pid` in `all_windows` (none when it has no entry). */
  function WindowsOf(all: map<Pid, seq<Hwnd>>, pid: Pid): set<Hwnd> {
    if pid in all then Elems(all[pid]) else {}
  }

  /** The windows of every pid of `all_windows` other than `pid`. */
  function WindowsOfOthers(all: map<Pid, seq<Hwnd>>, pid: Pid): (r: set<Hwnd>)
    ensures forall h :: h in r <==> exists p | p in all && p != pid :: h in all[p]
  {
    set p, h | p in all && p != pid && h in all[p] :: h
  }

  /** The choreography: restore every window of `pid`, bring `hwnd` to the
      front, then minimize every window of every other pid. */
  function Choreography(sc: Screen, all: map<Pid, seq<Hwnd>>, pid: Pid, hwnd: Hwnd): (r: Screen)
    ensures r.front == Some(hwnd)
    ensures forall h | h in WindowsOfOthers(all, pid) :: Iconic(r, h)
    ensures forall h | h in WindowsOf(all, pid) && h !in WindowsOfOthers(all, pid) :: !Iconic(r, h)
    ensures forall h | h !in WindowsOf(all, pid) && h !in WindowsOfOthers(all, pid) :: Iconic(r, h) == Iconic(sc, h)
  {
    var restored := SetMinimized(sc, WindowsOf(all, pid), false);
    SetMinimized(restored.(front := Some(hwnd)), WindowsOfOthers(all, pid), true)
  }

  datatype Key = Key(hwnd: Hwnd, pid: Pid)

  /** How the pass reacted to one tool window. */
  datatype Reaction = FirstSight | JustRestored | JustMinimized | Unchanged

  /** The loop's memory: the keys seen and the minimized flag last recorded
      for each. */
  datatype Memory = Memory(seen: set<Key>, state: map<Key, bool>)

  predicate Consistent(mem: Memory) {
    mem.seen == mem.state.Keys
  }

  datatype StepResult = StepResult(reaction: Reaction, mem: Memory, screen: Screen)

  /** The reaction to the tool window `t`, reading its minimized flag from
      the screen as it is at that point of the pass. A new key is remembered
      with the flag observed before any action and runs the choreography;
      for a key seen before, minimized to not minimized runs the
      choreography, not minimized to minimized minimizes that pid's windows
      and touches no other window, and an unchanged flag issues nothing. The
      recorded flag is overwritten in every case. */
  function Step(mem: Memory, sc: Screen, all: map<Pid, seq<Hwnd>>, t: Tool): (r: StepResult)
    requires Consistent(mem)
    ensures Consistent(r.mem)
    ensures r.mem.seen == mem.seen + {Key(t.hwnd, t.pid)}
    ensures r.mem.state == mem.state[Key(t.hwnd, t.pid) := Iconic(sc, t.hwnd)]
    ensures r.reaction == FirstSight <==> Key(t.hwnd, t.pid) !in mem.seen
    ensures r.reaction == JustRestored <==>
      Key(t.hwnd, t.pid) in mem.seen && mem.state[Key(t.hwnd, t.pid)] && !Iconic(sc, t.hwnd)
    ensures r.reaction == JustMinimized <==>
      Key(t.hwnd, t.pid) in mem.seen && !mem.state[Key(t.hwnd, t.pid)] && Iconic(sc, t.hwnd)
    ensures r.reaction == FirstSight || r.reaction == JustRestored ==> r.screen == Choreography(sc, all, t.pid, t.hwnd)
    ensures r.reaction == JustMinimized ==>
      && (forall h | h in WindowsOf(all, t.pid) :: Iconic(r.screen, h))
      && (forall h | h !in WindowsOf(all, t.pid) :: Iconic(r.screen, h) == Iconic(sc, h))
      && r.screen.front == sc.front
    ensures r.reaction == Unchanged ==> r.screen == sc
  {
    var key := Key(t.hwnd, t.pid);
    var isMin := Iconic(sc, t.hwnd);
    if key !in mem.seen then
      StepResult(FirstSight, Memory(mem.seen + {key}, mem.state[key := isMin]), Choreography(sc, all, t.pid, t.hwnd))
    else
      var prev := mem.state[key];
      var mem' := Memory(mem.seen, mem.state[key := isMin]);
      if !isMin && prev then StepResult(JustRestored, mem', Choreography(sc, all, t.pid, t.hwnd))
      else if isMin && !prev then StepResult(JustMinimized, mem', SetMinimized(sc, WindowsOf(all, t.pid), true))
      else StepResult(Unchanged, mem', sc)
  }

  /** No handle is listed under two pids. */
  predicate DistinctOwners(all: map<Pid, seq<Hwnd>>) {
    forall p, q, h | p in all && q in all && h in all[p] && h in all[q] :: p == q
  }

  /** The enumeration lists each handle once, so no handle is under two pids. */
  lemma {:induction false} AllWindowsDistinctOwners(ws: seq<TopWindow>, tracked: set<Pid>)
    requires forall i, j | 0 <= i < j < |ws| :: ws[i].hwnd != ws[j].hwnd
    ensures DistinctOwners(AllWindows(ws, tracked))
  {
    var all := AllWindows(ws, tracked);
    forall p, q, h | p in all && q in all && h in all[p] && h in all[q]
      ensures p == q
    {
      var w1 :| w1 in ws && Listed(w1, tracked) && w1.pid == p && w1.hwnd == h;
      var w2 :| w2 in ws && Listed(w2, tracked) && w2.pid == q && w2.hwnd == h;
      var i :| 0 <= i < |ws| && ws[i] == w1;
      var j :| 0 <= j < |ws| && ws[j] == w2;
      assert i == j;
    }
  }

  /** After the choreography, the windows restored among those listed are
      exactly the windows of `pid`: every other pid's windows, child helpers
      of the same instance included, are minimized. */
  lemma {:induction false} ChoreographyLeavesOnlyPid(sc: Screen, all: map<Pid, seq<Hwnd>>, pid: Pid, hwnd: Hwnd)
    requires DistinctOwners(all)
    ensures forall p, h | p in all && h in all[p] :: !Iconic(Choreography(sc, all, pid, hwnd), h) <==> p == pid
  {
    var r := Choreography(sc, all, pid, hwnd);
    forall p, h | p in all && h in all[p]
      ensures !Iconic(r, h) <==> p == pid
    {
      if p == pid {
        assert h in WindowsOf(all, pid);
        assert h !in WindowsOfOthers(all, pid);
      } else {
        assert h in WindowsOfOthers(all, pid);
      }
    }
  }

  /** A child helper process is a pid of its own in `all_windows`, so the
      choreography for its instance's main window minimizes the helper's
      windows too. */
  lemma HelperWindowsAreMinimized(s: Snapshot, roots: set<Pid>, ws: seq<TopWindow>, sc: Screen, main: Tool, helper: TopWindow)
    requires helper in ws && helper.visible && helper.pidKnown
    requires helper.pid in s.parent && s.parent[helper.pid] == main.pid && helper.pid != main.pid
    requires main.pid in Tracked(s, roots)
    ensures helper.pid in Tracked(s, roots)
    ensures Iconic(Choreography(sc, AllWindows(ws, Tracked(s, roots)), main.pid, main.hwnd), helper.hwnd)
  {
    var all := AllWindows(ws, Tracked(s, roots));
    assert helper.pid in all && helper.hwnd in all[helper.pid];
    assert helper.hwnd in WindowsOfOthers(all, main.pid);
  }

  datatype PassResult = PassResult(reactions: seq<Reaction>, mem: Memory, screen: Screen)

  /** One pass of the main loop over the tool windows in order. */
  function RunPass(mem: Memory, sc: Screen, all: map<Pid, seq<Hwnd>>, tools: seq<Tool>): (r: PassResult)
    requires Consistent(mem)
    ensures Consistent(r.mem)
    ensures |r.reactions| == |tools|
    ensures r.mem.seen == mem.seen + set t | t in tools :: Key(t.hwnd, t.pid)
    decreases |tools|
  {
    if tools == [] then PassResult([], mem, sc)
    else
      var st := Step(mem, sc, all, tools[0]);
      var rest := RunPass(st.mem, st.screen, all, tools[1..]);
      assert forall t | t in tools :: t == tools[0] || t in tools[1..];
      PassResult([st.reaction] + rest.reactions, rest.mem, rest.screen)
  }

  /** A key's recorded flag is overwritten on every pass with the flag
      observed for it, and keys the pass does not meet keep theirs. */
  lemma {:induction false} PassKeepsUnmetKeys(mem: Memory, sc: Screen, all: map<Pid, seq<Hwnd>>, tools: seq<Tool>, k: Key)
    requires Consistent(mem)
    requires k in mem.state
    requires forall t | t in tools :: Key(t.hwnd, t.pid) != k
    ensures RunPass(mem, sc, all, tools).mem.state[k] == mem.state[k]
    decreases |tools|
  {
    if tools != [] {
      var st := Step(mem, sc, all, tools[0]);
      assert tools[0] in tools;
      assert forall t | t in tools[1..] :: t in tools;
      PassKeepsUnmetKeys(st.mem, st.screen, all, tools[1..], k);
    }
  }

  /** Quiescence: when every tool window's key is remembered with the flag
      the screen shows, the pass changes neither the screen nor the memory. */
  lemma {:induction false} QuietPass(mem: Memory, sc: Screen, all: map<Pid, seq<Hwnd>>, tools: seq<Tool>)
    requires Consistent(mem)
    requires forall t | t in tools :: Key(t.hwnd, t.pid) in mem.seen && mem.state[Key(t.hwnd, t.pid)] == Iconic(sc, t.hwnd)
    ensures RunPass(mem, sc, all, tools).screen == sc
    ensures RunPass(mem, sc, all, tools).mem == mem
    ensures forall i | 0 <= i < |tools| :: RunPass(mem, sc, all, tools).reactions[i] == Unchanged
    decreases |tools|
  {
    if tools != [] {
      var t := tools[0];
      assert t in tools;
      var st := Step(mem, sc, all, t);
      assert st.mem.state == mem.state;
      assert st.mem == mem;
      assert forall u | u in tools[1..] :: u in tools;
      QuietPass(mem, sc, all, tools[1..]);
    }
  }

  /** The start of the script: `start_instances` launches exactly `count`
      processes in order (`spawned` are the pids the system hands out), and
      the script exits when none were launched. */
  datatype Start = NoInstances | Supervising(procs: seq<Pid>, mem: Memory)

  function Begin(count: nat, spawned: seq<Pid>): (r: Start)
    requires |spawned| >= count
    ensures r.NoInstances? <==> count == 0
    ensures r.Supervising? ==> r.procs == spawned[..count] && Consistent(r.mem) && r.mem.seen == {}
  {
    if count == 0 then NoInstances else Supervising(spawned[..count], Memory({}, map[]))
  }
}
