/** One pass of the multi-desktop enforcement loop
    (`enforcement_loop` in auto_new_desktop_per_instance.py and the main loop
    of new_desktop_per_instance.py): every window whose process is tracked,
    whose title is treated and whose owning instance has a desired desktop is
    moved there when it sits on another desktop. */
module Placement {
  import opened Common
  import opened ProcessTree

  type Hwnd = nat

  /** A top-level window as the pass sees it: handle, owning pid, title and
      the number of the virtual desktop it is on. */
  datatype Window = Window(hwnd: Hwnd, pid: Pid, title: string, desktop: nat)

  /** The supervisor's state read by a pass: treated titles, root pids, the
      desired desktop number per root, and the numbers of the desktops that
      exist. */
  datatype Config = Config(treat: set<string>, roots: set<Pid>, table: map<Pid, nat>, desktops: seq<nat>)

  /** What a pass does with one window. `Raises` is an exception that ends
      the pass (the walk's `AttributeError`, or `StopIteration` when no
      desktop has the desired number); `Hangs` is the walk never ending. */
  datatype Decision = Leave | MoveTo(target: nat) | Raises | Hangs

  /** The walk is given one parent step per live process; the source has no
      bound (see `ProcessTree.TrackedPidsResolve` and
      `ProcessTree.DivergenceNeedsCycle` for why this changes nothing but
      cycles). */
  function Owner(s: Snapshot, cfg: Config, pid: Pid): Walk {
    FindRoot(s, cfg.roots, pid, |s.parent.Keys|)
  }

  function Decide(s: Snapshot, cfg: Config, tracked: set<Pid>, w: Window): (d: Decision)
    ensures d.MoveTo? ==> d.target != w.desktop && d.target in cfg.desktops
  {
    if w.pid !in tracked || w.title !in cfg.treat then Leave
    else match Owner(s, cfg, w.pid)
      case NoRoot => Leave
      case Crash => Raises
      case Diverges => Hangs
      case Found(r) =>
        if r !in cfg.table || cfg.table[r] == w.desktop then Leave
        else if cfg.table[r] !in cfg.desktops then Raises
        else MoveTo(cfg.table[r])
  }

  /** The window is one the pass must move to desktop `t`: its process is
      tracked, its title treated, its owning root found with a desired
      desktop `t`, and it is not on `t` already. */
  ghost predicate Qualifies(s: Snapshot, cfg: Config, w: Window, t: nat) {
    && w.pid in Tracked(s, cfg.roots)
    && w.title in cfg.treat
    && Owner(s, cfg, w.pid).Found?
    && Owner(s, cfg, w.pid).root in cfg.table
    && cfg.table[Owner(s, cfg, w.pid).root] == t
    && w.desktop != t
  }

  datatype Move = Move(hwnd: Hwnd, target: nat)
  datatype PassEnd = Completed | Raised | Hung
  datatype PassResult = PassResult(moves: seq<Move>, end: PassEnd)

  /** The moves issued over the windows in z-order, until the pass ends or
      an exception stops it. */
  function RunPass(s: Snapshot, cfg: Config, tracked: set<Pid>, ws: seq<Window>): (r: PassResult)
    ensures |r.moves| <= |ws|
  {
    if ws == [] then PassResult([], Completed)
    else match Decide(s, cfg, tracked, ws[0])
      case Leave => RunPass(s, cfg, tracked, ws[1..])
      case MoveTo(t) =>
        var rest := RunPass(s, cfg, tracked, ws[1..]);
        PassResult([Move(ws[0].hwnd, t)] + rest.moves, rest.end)
      case Raises => PassResult([], Raised)
      case Hangs => PassResult([], Hung)
  }

  /** One enforcement pass: recompute the tracked set, then decide. */
  function Pass(s: Snapshot, cfg: Config, ws: seq<Window>): PassResult {
    RunPass(s, cfg, Tracked(s, cfg.roots), ws)
  }

  /** The windows once the pass's moves have taken effect. */
  function Settle(s: Snapshot, cfg: Config, ws: seq<Window>): (r: seq<Window>)
    ensures |r| == |ws|
    ensures forall i | 0 <= i < |ws| :: r[i].hwnd == ws[i].hwnd && r[i].pid == ws[i].pid && r[i].title == ws[i].title
  {
    var tracked := Tracked(s, cfg.roots);
    seq(|ws|, i requires 0 <= i < |ws| =>
      match Decide(s, cfg, tracked, ws[i])
      case MoveTo(t) => ws[i].(desktop := t)
      case _ => ws[i])
  }

  /** The desktop the moves send a window to: the target of the first move
      for its handle, if any. */
  function TargetFor(moves: seq<Move>, h: Hwnd): Option<nat> {
    if moves == [] then None
    else if moves[0].hwnd == h then Some(moves[0].target)
    else TargetFor(moves[1..], h)
  }

  /** The windows once `moves` have been carried out, matched by handle. */
  function ApplyMoves(ws: seq<Window>, moves: seq<Move>): (r: seq<Window>)
    ensures |r| == |ws|
  {
    seq(|ws|, i requires 0 <= i < |ws| =>
      match TargetFor(moves, ws[i].hwnd)
      case Some(t) => ws[i].(desktop := t)
      case None => ws[i])
  }

  /** What a pass decides for one window, as a target. */
  function DecidedTarget(s: Snapshot, cfg: Config, tracked: set<Pid>, w: Window): Option<nat> {
    match Decide(s, cfg, tracked, w)
    case MoveTo(t) => Some(t)
    case _ => None
  }

  predicate DistinctHandles(ws: seq<Window>) {
    forall i, j | 0 <= i < j < |ws| :: ws[i].hwnd != ws[j].hwnd
  }

  /** On a completed pass over distinct handles, the moves send a window to
      exactly the desktop decided for it, and a handle not among the
      windows gets no move. */
  lemma {:induction false} RunPassTargets(s: Snapshot, cfg: Config, tracked: set<Pid>, ws: seq<Window>, h: Hwnd)
    requires RunPass(s, cfg, tracked, ws).end == Completed
    requires DistinctHandles(ws)
    ensures (forall i | 0 <= i < |ws| :: ws[i].hwnd != h) ==> TargetFor(RunPass(s, cfg, tracked, ws).moves, h) == None
    ensures forall i | 0 <= i < |ws| && ws[i].hwnd == h ::
      TargetFor(RunPass(s, cfg, tracked, ws).moves, h) == DecidedTarget(s, cfg, tracked, ws[i])
    decreases |ws|
  {
    if ws != [] {
      var rest := RunPass(s, cfg, tracked, ws[1..]);
      assert forall i | 1 <= i < |ws| :: ws[i] == ws[1..][i - 1];
      RunPassTargets(s, cfg, tracked, ws[1..], h);
      var moves := RunPass(s, cfg, tracked, ws).moves;
      match Decide(s, cfg, tracked, ws[0])
      case Leave =>
        assert moves == rest.moves;
      case MoveTo(t) =>
        assert moves == [Move(ws[0].hwnd, t)] + rest.moves;
        assert moves[1..] == rest.moves;
    }
  }

  /** `Settle` is what carrying out the pass's own moves gives: on a
      completed pass over windows with distinct handles, each window ends
      where the issued move for its handle sends it. */
  lemma SettleIsAppliedMoves(s: Snapshot, cfg: Config, ws: seq<Window>)
    requires Pass(s, cfg, ws).end == Completed
    requires DistinctHandles(ws)
    ensures Settle(s, cfg, ws) == ApplyMoves(ws, Pass(s, cfg, ws).moves)
  {
    var tracked := Tracked(s, cfg.roots);
    var a := ApplyMoves(ws, Pass(s, cfg, ws).moves);
    var b := Settle(s, cfg, ws);
    forall i | 0 <= i < |ws| ensures b[i] == a[i] {
      RunPassTargets(s, cfg, tracked, ws, ws[i].hwnd);
    }
  }

  lemma {:induction false} RunPassMoveQualifies(s: Snapshot, cfg: Config, ws: seq<Window>, k: nat) returns (i: nat)
    requires k < |RunPass(s, cfg, Tracked(s, cfg.roots), ws).moves|
    ensures i < |ws|
    ensures Decide(s, cfg, Tracked(s, cfg.roots), ws[i]).MoveTo?
    ensures RunPass(s, cfg, Tracked(s, cfg.roots), ws).moves[k] == Move(ws[i].hwnd, Decide(s, cfg, Tracked(s, cfg.roots), ws[i]).target)
    decreases |ws|
  {
    var tracked := Tracked(s, cfg.roots);
    match Decide(s, cfg, tracked, ws[0])
    case Leave =>
      var i' := RunPassMoveQualifies(s, cfg, ws[1..], k);
      i := i' + 1;
    case MoveTo(t) =>
      if k == 0 {
        i := 0;
      } else {
        var i' := RunPassMoveQualifies(s, cfg, ws[1..], k - 1);
        i := i' + 1;
      }
  }

  /** A move is issued only for a window that is tracked, treated, owned by
      a root with a desired desktop, and not on that desktop yet. */
  lemma MoveIssuedOnlyWhenQualified(s: Snapshot, cfg: Config, ws: seq<Window>, k: nat) returns (i: nat)
    requires k < |Pass(s, cfg, ws).moves|
    ensures i < |ws| && Pass(s, cfg, ws).moves[k].hwnd == ws[i].hwnd
    ensures Qualifies(s, cfg, ws[i], Pass(s, cfg, ws).moves[k].target)
  {
    i := RunPassMoveQualifies(s, cfg, ws, k);
  }

  lemma {:induction false} CompletedMeansNoFailure(s: Snapshot, cfg: Config, tracked: set<Pid>, ws: seq<Window>)
    requires RunPass(s, cfg, tracked, ws).end == Completed
    ensures forall i | 0 <= i < |ws| :: Decide(s, cfg, tracked, ws[i]).Leave? || Decide(s, cfg, tracked, ws[i]).MoveTo?
    decreases |ws|
  {
    if ws != [] {
      CompletedMeansNoFailure(s, cfg, tracked, ws[1..]);
      assert forall i | 1 <= i < |ws| :: ws[i] == ws[1..][i - 1];
    }
  }

  lemma {:induction false} AllLeaveMeansQuiet(s: Snapshot, cfg: Config, tracked: set<Pid>, ws: seq<Window>)
    requires forall i | 0 <= i < |ws| :: Decide(s, cfg, tracked, ws[i]).Leave?
    ensures RunPass(s, cfg, tracked, ws) == PassResult([], Completed)
    decreases |ws|
  {
    if ws != [] {
      assert Decide(s, cfg, tracked, ws[0]).Leave?;
      AllLeaveMeansQuiet(s, cfg, tracked, ws[1..]);
    }
  }

  /** Idempotence: once a completed pass's moves have taken effect, a second
      pass over the unchanged snapshot issues no moves. */
  lemma SecondPassIsQuiet(s: Snapshot, cfg: Config, ws: seq<Window>)
    requires Pass(s, cfg, ws).end == Completed
    ensures Pass(s, cfg, Settle(s, cfg, ws)) == PassResult([], Completed)
  {
    var tracked := Tracked(s, cfg.roots);
    var ws' := Settle(s, cfg, ws);
    CompletedMeansNoFailure(s, cfg, tracked, ws);
    forall i | 0 <= i < |ws'|
      ensures Decide(s, cfg, tracked, ws'[i]).Leave?
    {
      assert ws'[i].pid == ws[i].pid && ws'[i].title == ws[i].title;
    }
    AllLeaveMeansQuiet(s, cfg, tracked, ws');
  }

  /** Convergence: after one completed pass every tracked, treated window
      whose owner has a desired desktop is on that desktop. */
  lemma OnePassConverges(s: Snapshot, cfg: Config, ws: seq<Window>, i: nat)
    requires Pass(s, cfg, ws).end == Completed
    requires i < |ws|
    requires ws[i].pid in Tracked(s, cfg.roots) && ws[i].title in cfg.treat
    requires Owner(s, cfg, ws[i].pid).Found? && Owner(s, cfg, ws[i].pid).root in cfg.table
    ensures Settle(s, cfg, ws)[i].desktop == cfg.table[Owner(s, cfg, ws[i].pid).root]
  {
    CompletedMeansNoFailure(s, cfg, Tracked(s, cfg.roots), ws);
  }

  lemma {:induction false} RunPassCompletes(s: Snapshot, cfg: Config, tracked: set<Pid>, ws: seq<Window>)
    requires forall i | 0 <= i < |ws| :: Decide(s, cfg, tracked, ws[i]).Leave? || Decide(s, cfg, tracked, ws[i]).MoveTo?
    ensures RunPass(s, cfg, tracked, ws).end == Completed
    decreases |ws|
  {
    if ws != [] {
      assert Decide(s, cfg, tracked, ws[0]) == Decide(s, cfg, tracked, ws[0]);
      RunPassCompletes(s, cfg, tracked, ws[1..]);
    }
  }

  /** Every desired desktop number is the number of an existing desktop. */
  predicate TargetsExist(cfg: Config) {
    forall r | r in cfg.table :: cfg.table[r] in cfg.desktops
  }

  /** On a consistent snapshot, and when every desired desktop exists, a pass
      never raises and never hangs: every window it looks at is tracked, so
      its owner is always found. */
  lemma PassNeverFails(s: Snapshot, cfg: Config, ws: seq<Window>)
    requires IdleIsOwnParent(s) && 0 !in cfg.roots
    requires TargetsExist(cfg)
    ensures Pass(s, cfg, ws).end == Completed
  {
    var tracked := Tracked(s, cfg.roots);
    forall i | 0 <= i < |ws|
      ensures Decide(s, cfg, tracked, ws[i]).Leave? || Decide(s, cfg, tracked, ws[i]).MoveTo?
    {
      if ws[i].pid in tracked && ws[i].title in cfg.treat {
        TrackedPidsResolve(s, cfg.roots, ws[i].pid);
      }
    }
    RunPassCompletes(s, cfg, tracked, ws);
  }

  /** In new_desktop_per_instance.py the table's keys are exactly the roots,
      so the lookup `pid_to_desktop_num[root]` never misses: every tracked,
      treated window off its instance's desktop is moved there. */
  lemma FullTableMovesEveryStray(s: Snapshot, cfg: Config, w: Window)
    requires IdleIsOwnParent(s) && 0 !in cfg.roots
    requires TargetsExist(cfg) && cfg.table.Keys == cfg.roots
    requires w.pid in Tracked(s, cfg.roots) && w.title in cfg.treat
    ensures Owner(s, cfg, w.pid).Found?
    ensures var t := cfg.table[Owner(s, cfg, w.pid).root];
      Decide(s, cfg, Tracked(s, cfg.roots), w) == if w.desktop == t then Leave else MoveTo(t)
  {
    TrackedPidsResolve(s, cfg.roots, w.pid);
  }
}
