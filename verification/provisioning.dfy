/** Creating enough virtual desktops (`ensure_desktops`, in both
    multi-desktop variants), launching one instance per desktop
    (`start_instances` in new_desktop_per_instance.py) and the table of
    desired desktops built from the launched processes. */
module Provisioning {
  import opened Common
  import opened Sorting
  import opened ProcessTree
  import Placement

  /** What `ensure_desktops` has done so far. `queries[k]` is the list of
      desktop numbers the system reports after `k` creation keystrokes; the
      source loops until one of them is long enough and has no other exit,
      so a trace whose every entry is short leaves it `Waiting`. */
  datatype Provisioned = Ready(desktops: seq<nat>, created: nat) | Waiting(created: nat)

  /** The first query at or after `k` that reports at least `count` desktops. */
  function FirstEnough(count: nat, queries: seq<seq<nat>>, k: nat): (r: Option<nat>)
    requires k <= |queries|
    ensures r.Some? ==> k <= r.value < |queries| && |queries[r.value]| >= count
    ensures r.Some? ==> forall j | k <= j < r.value :: |queries[j]| < count
    ensures r.None? <==> forall j | k <= j < |queries| :: |queries[j]| < count
    decreases |queries| - k
  {
    if k == |queries| then None
    else if |queries[k]| >= count then Some(k)
    else FirstEnough(count, queries, k + 1)
  }

  /** `ensure_desktops(count)`; `sortByNumber` is the auto variant's final
      `sorted(desktops, key=lambda d: d.number)`, the other variant returns
      the list as reported. */
  function EnsureDesktops(count: nat, queries: seq<seq<nat>>, sortByNumber: bool): (r: Provisioned)
    requires |queries| > 0
    ensures r.Ready? ==> r.created < |queries| && |r.desktops| >= count
    ensures r.Ready? ==> multiset(r.desktops) == multiset(queries[r.created])
    ensures r.Ready? && !sortByNumber ==> r.desktops == queries[r.created]
    ensures r.Ready? && sortByNumber ==> forall i, j | 0 <= i < j < |r.desktops| :: r.desktops[i] <= r.desktops[j]
    ensures r.Ready? ==> forall j | 0 <= j < r.created :: |queries[j]| < count
    ensures r.Waiting? <==> forall j | 0 <= j < |queries| :: |queries[j]| < count
    ensures r.Waiting? ==> r.created == |queries| - 1
  {
    match FirstEnough(count, queries, 0)
    case None => Waiting(|queries| - 1)
    case Some(k) => Ready(if sortByNumber then SortNats(queries[k]) else queries[k], k)
  }

  /** When every creation keystroke adds exactly one desktop to the `b`
      there were, `ensure_desktops` creates exactly `count - b` of them (none
      when `b >= count`). */
  lemma {:induction false} CreatesTheShortfall(count: nat, b: nat, queries: seq<seq<nat>>, sortByNumber: bool)
    requires forall k | 0 <= k < |queries| :: |queries[k]| == b + k
    requires |queries| > count
    ensures EnsureDesktops(count, queries, sortByNumber).Ready?
    ensures EnsureDesktops(count, queries, sortByNumber).created == if b >= count then 0 else count - b
  {
    var want := if b >= count then 0 else count - b;
    assert |queries[want]| >= count;
  }

  /** One step of `start_instances`: switch to a desktop, or launch the
      executable there. */
  datatype Action = Go(number: nat) | Spawn

  /** The actions `start_instances` issues: for each index below `count`,
      switch to that desktop, then launch. */
  function StartActions(desktops: seq<nat>, count: nat): (r: seq<Action>)
    requires count <= |desktops|
    ensures |r| == 2 * count
    ensures forall i | 0 <= i < count :: r[2 * i] == Go(desktops[i]) && r[2 * i + 1] == Spawn
  {
    if count == 0 then []
    else StartActions(desktops, count - 1) + [Go(desktops[count - 1]), Spawn]
  }

  /** `{p.pid: desktops[i].number for i, p in enumerate(procs)}`: built left
      to right, so a pid that occurs twice keeps its last entry. */
  function DesiredTable(pids: seq<Pid>, numbers: seq<nat>): (t: map<Pid, nat>)
    requires |pids| <= |numbers|
    ensures t.Keys == set i | 0 <= i < |pids| :: pids[i]
    ensures forall p | p in t :: t[p] in numbers[..|pids|]
  {
    if pids == [] then map[]
    else
      var n := |pids| - 1;
      var t := DesiredTable(pids[..n], numbers)[pids[n] := numbers[n]];
      assert forall i | 0 <= i < n :: pids[..n][i] == pids[i];
      assert numbers[..n] <= numbers[..|pids|];
      t
  }

  /** Each pid maps to the number of the desktop of its LAST launch. */
  lemma {:induction false} DesiredTableLastWins(pids: seq<Pid>, numbers: seq<nat>, i: nat)
    requires |pids| <= |numbers|
    requires i < |pids|
    requires forall j | i < j < |pids| :: pids[j] != pids[i]
    ensures pids[i] in DesiredTable(pids, numbers)
    ensures DesiredTable(pids, numbers)[pids[i]] == numbers[i]
    decreases |pids|
  {
    var n := |pids| - 1;
    if i < n {
      assert pids[..n][i] == pids[i];
      DesiredTableLastWins(pids[..n], numbers, i);
    }
  }

  /** With distinct pids (the system never hands out a live pid twice) the
      table pairs each launch with its own desktop. */
  lemma DesiredTableOfDistinct(pids: seq<Pid>, numbers: seq<nat>)
    requires |pids| <= |numbers|
    requires forall i, j | 0 <= i < j < |pids| :: pids[i] != pids[j]
    ensures forall i | 0 <= i < |pids| :: DesiredTable(pids, numbers)[pids[i]] == numbers[i]
  {
    forall i | 0 <= i < |pids|
      ensures DesiredTable(pids, numbers)[pids[i]] == numbers[i]
    {
      DesiredTableLastWins(pids, numbers, i);
    }
  }

  /** The supervisor configuration new_desktop_per_instance.py starts its
      enforcement loop with: roots are the launched pids and the table
      follows `DesiredTable`. */
  function NewVariantConfig(treat: set<string>, pids: seq<Pid>, desktops: seq<nat>): (cfg: Placement.Config)
    requires |pids| <= |desktops|
    ensures cfg.roots == cfg.table.Keys
    ensures Placement.TargetsExist(cfg)
  {
    var t := DesiredTable(pids, desktops);
    assert forall p | p in t :: t[p] in desktops by {
      forall p | p in t
        ensures t[p] in desktops
      {
        assert t[p] in desktops[..|pids|];
      }
    }
    Placement.Config(treat, set i | 0 <= i < |pids| :: pids[i], t, desktops)
  }

  /** Composition: in new_desktop_per_instance.py, on a consistent snapshot
      with none of the launched pids being the idle process, every
      enforcement pass completes, and every window of a tracked process with a
      treated title has its owning instance found. */
  lemma NewVariantPassesComplete(s: Snapshot, treat: set<string>, pids: seq<Pid>, desktops: seq<nat>, ws: seq<Placement.Window>)
    requires |pids| <= |desktops|
    requires IdleIsOwnParent(s) && forall i | 0 <= i < |pids| :: pids[i] != 0
    ensures Placement.Pass(s, NewVariantConfig(treat, pids, desktops), ws).end == Placement.Completed
    ensures forall w | w in ws && w.pid in Tracked(s, NewVariantConfig(treat, pids, desktops).roots) && w.title in treat ::
      Placement.Owner(s, NewVariantConfig(treat, pids, desktops), w.pid).Found?
  {
    var cfg := NewVariantConfig(treat, pids, desktops);
    Placement.PassNeverFails(s, cfg, ws);
    forall w | w in ws && w.pid in Tracked(s, cfg.roots) && w.title in treat
      ensures Placement.Owner(s, cfg, w.pid).Found?
    {
      Placement.FullTableMovesEveryStray(s, cfg, w);
    }
  }
}
