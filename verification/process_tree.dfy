/** The process-tree tracker (`gather_tracked_pids`) and the ownership
    resolver (`find_root_pid`), shared by the three supervisor scripts.

    The operating system is a snapshot: a map from every live pid to its
    parent pid, where a parent of 0 means "no parent". */
module ProcessTree {
  import opened Common

  type Pid = nat

  datatype Snapshot = Snapshot(parent: map<Pid, Pid>)

  /** What Windows guarantees about pid 0 (the idle process): when it is
      listed at all, it is its own parent. */
  predicate IdleIsOwnParent(s: Snapshot) {
    0 in s.parent ==> s.parent[0] == 0
  }

  function Children(s: Snapshot, S: set<Pid>): set<Pid> {
    set q | q in s.parent && s.parent[q] in S
  }

  /** Every live child of a member is a member. */
  predicate Closed(s: Snapshot, C: set<Pid>) {
    forall q | q in s.parent && s.parent[q] in C :: q in C
  }

  /** The least closed set of pids containing `S`: `S` and all its recursive
      children (what `psutil.Process.children(recursive=True)` walks). */
  function Closure(s: Snapshot, S: set<Pid>): (r: set<Pid>)
    requires S <= s.parent.Keys
    ensures S <= r <= s.parent.Keys
    ensures Closed(s, r)
    ensures forall C | S <= C && Closed(s, C) :: r <= C
    decreases |s.parent.Keys - S|
  {
    var S' := S + Children(s, S);
    if S' == S then S
    else
      ProperSubsetIsSmaller(s.parent.Keys - S', s.parent.Keys - S);
      assert forall C | S <= C && Closed(s, C) :: S' <= C;
      Closure(s, S')
  }

  lemma ProperSubsetIsSmaller<T>(A: set<T>, B: set<T>)
    requires A < B
    ensures |A| < |B|
  {
    assert !(B <= A);
    var x :| x in B && x !in A;
    assert B == A + (B - A);
    assert |B - A| >= 1 by {
      assert x in B - A;
    }
  }

  /** `gather_tracked_pids`: each root whose pid still exists, plus all of
      its recursive children; a root that has exited contributes nothing. */
  function Tracked(s: Snapshot, roots: set<Pid>): (r: set<Pid>)
    ensures roots * s.parent.Keys <= r <= s.parent.Keys
    ensures Closed(s, r)
    ensures forall C | roots * s.parent.Keys <= C && Closed(s, C) :: r <= C
  {
    Closure(s, roots * s.parent.Keys)
  }

  /** The k-th ancestor of `q`, following parent links through live
      processes only; `None` as soon as the chain leaves the snapshot. */
  function Climb(s: Snapshot, q: Pid, k: nat): (r: Option<Pid>)
    ensures r.Some? ==> r.value in s.parent
    decreases k
  {
    if q !in s.parent then None
    else if k == 0 then Some(q)
    else Climb(s, s.parent[q], k - 1)
  }

  /** The k-th ancestor of `q` exists and belongs to `R`. */
  predicate ClimbsTo(s: Snapshot, q: Pid, k: nat, R: set<Pid>) {
    Climb(s, q, k).Some? && Climb(s, q, k).value in R
  }

  lemma {:induction false} ChainIsTracked(s: Snapshot, R: set<Pid>, q: Pid, k: nat)
    requires ClimbsTo(s, q, k, R)
    ensures q in Tracked(s, R)
    decreases k
  {
    if k > 0 {
      ChainIsTracked(s, R, s.parent[q], k - 1);
    }
  }

  lemma TrackedHasChain(s: Snapshot, R: set<Pid>, q: Pid)
    requires q in Tracked(s, R)
    ensures exists k: nat :: ClimbsTo(s, q, k, R)
  {
    var C := set p | p in s.parent && exists k: nat :: ClimbsTo(s, p, k, R);
    forall p | p in R * s.parent.Keys
      ensures p in C
    {
      assert ClimbsTo(s, p, 0, R);
    }
    forall p | p in s.parent && s.parent[p] in C
      ensures p in C
    {
      var k: nat :| ClimbsTo(s, s.parent[p], k, R);
      assert Climb(s, p, k + 1) == Climb(s, s.parent[p], k);
      assert ClimbsTo(s, p, k + 1, R);
    }
    assert Closed(s, C);
  }

  /** A pid is tracked exactly when some ancestor-or-self of it, reached
      through live processes, is a root. */
  lemma TrackedIffChain(s: Snapshot, R: set<Pid>, q: Pid)
    ensures q in Tracked(s, R) <==> exists k: nat :: ClimbsTo(s, q, k, R)
  {
    if q in Tracked(s, R) {
      TrackedHasChain(s, R, q);
    }
    if exists k: nat :: ClimbsTo(s, q, k, R) {
      var k: nat :| ClimbsTo(s, q, k, R);
      ChainIsTracked(s, R, q, k);
    }
  }

  /** The tracked set is the union, over the roots, of each root's own tree. */
  lemma TrackedIsUnionOfRoots(s: Snapshot, R: set<Pid>, q: Pid)
    ensures q in Tracked(s, R) <==> exists r | r in R :: q in Tracked(s, {r})
  {
    TrackedIffChain(s, R, q);
    if q in Tracked(s, R) {
      var k: nat :| ClimbsTo(s, q, k, R);
      var r := Climb(s, q, k).value;
      assert ClimbsTo(s, q, k, {r});
      ChainIsTracked(s, {r}, q, k);
    }
    if exists r | r in R :: q in Tracked(s, {r}) {
      var r :| r in R && q in Tracked(s, {r});
      TrackedHasChain(s, {r}, q);
      var k: nat :| ClimbsTo(s, q, k, {r});
      ChainIsTracked(s, R, q, k);
    }
  }

  /** A root whose process has exited adds nothing (and raises nothing). */
  lemma DeadRootAddsNothing(s: Snapshot, R: set<Pid>, r: Pid)
    requires r !in s.parent
    ensures Tracked(s, R + {r}) == Tracked(s, R)
  {
    assert (R + {r}) * s.parent.Keys == R * s.parent.Keys;
  }

  /** How the walk of `find_root_pid` ends. `Crash` is the source's
      `AttributeError` when `parent()` returns None for a parent that has
      exited; `Diverges` stands for its unbounded loop when the fuel runs out. */
  datatype Walk = Found(root: Pid) | NoRoot | Crash | Diverges

  function WalkUp(s: Snapshot, roots: set<Pid>, q: Pid, fuel: nat): (w: Walk)
    requires q in s.parent
    ensures w.Found? ==> w.root in roots && w.root in s.parent
    decreases fuel
  {
    if q in roots then Found(q)
    else if s.parent[q] == 0 then NoRoot
    else if s.parent[q] !in s.parent then Crash
    else if fuel == 0 then Diverges
    else WalkUp(s, roots, s.parent[q], fuel - 1)
  }

  /** `find_root_pid(pid, root_pids)`, allowed `fuel` parent steps. */
  function FindRoot(s: Snapshot, roots: set<Pid>, pid: Pid, fuel: nat): (w: Walk)
    ensures pid !in s.parent ==> w == NoRoot
    ensures pid in s.parent && pid in roots ==> w == Found(pid)
    ensures w.Found? ==> w.root in roots && w.root in s.parent
  {
    if pid !in s.parent then NoRoot else WalkUp(s, roots, pid, fuel)
  }

  lemma {:induction false} WalkUpNearest(s: Snapshot, roots: set<Pid>, q: Pid, fuel: nat) returns (k: nat)
    requires q in s.parent
    requires WalkUp(s, roots, q, fuel).Found?
    ensures k <= fuel && Climb(s, q, k) == Some(WalkUp(s, roots, q, fuel).root)
    ensures forall j | 0 <= j < k :: Climb(s, q, j).Some? && Climb(s, q, j).value !in roots
    decreases fuel
  {
    if q in roots {
      k := 0;
    } else {
      var p := s.parent[q];
      var k' := WalkUpNearest(s, roots, p, fuel - 1);
      k := k' + 1;
      forall j | 0 <= j < k
        ensures Climb(s, q, j).Some? && Climb(s, q, j).value !in roots
      {
        if j > 0 {
          assert Climb(s, q, j) == Climb(s, p, j - 1);
        }
      }
    }
  }

  /** The root found is the nearest ancestor-or-self of `pid` in `roots`. */
  lemma FindRootIsNearest(s: Snapshot, roots: set<Pid>, pid: Pid, fuel: nat) returns (k: nat)
    requires FindRoot(s, roots, pid, fuel).Found?
    ensures k <= fuel && Climb(s, pid, k) == Some(FindRoot(s, roots, pid, fuel).root)
    ensures forall j | 0 <= j < k :: Climb(s, pid, j).Some? && Climb(s, pid, j).value !in roots
  {
    k := WalkUpNearest(s, roots, pid, fuel);
  }

  lemma {:induction false} WalkUpNoRoot(s: Snapshot, roots: set<Pid>, q: Pid, fuel: nat) returns (k: nat)
    requires q in s.parent
    requires WalkUp(s, roots, q, fuel) == NoRoot
    ensures Climb(s, q, k).Some? && s.parent[Climb(s, q, k).value] == 0
    ensures forall j | 0 <= j <= k :: Climb(s, q, j).Some? && Climb(s, q, j).value !in roots
    decreases fuel
  {
    if s.parent[q] == 0 {
      k := 0;
    } else {
      var p := s.parent[q];
      var k' := WalkUpNoRoot(s, roots, p, fuel - 1);
      k := k' + 1;
      assert Climb(s, q, k) == Climb(s, p, k');
      forall j | 0 <= j <= k
        ensures Climb(s, q, j).Some? && Climb(s, q, j).value !in roots
      {
        if j > 0 {
          assert Climb(s, q, j) == Climb(s, p, j - 1);
        }
      }
    }
  }

  /** `find_root_pid` gives None only for a pid that does not exist, or when
      the walk reaches a process whose parent pid is 0 before any root. */
  lemma FindRootNoneMeansPidZero(s: Snapshot, roots: set<Pid>, pid: Pid, fuel: nat)
    requires FindRoot(s, roots, pid, fuel) == NoRoot
    ensures pid !in s.parent || exists k: nat ::
      Climb(s, pid, k).Some? && s.parent[Climb(s, pid, k).value] == 0 &&
      forall j | 0 <= j <= k :: Climb(s, pid, j).Some? && Climb(s, pid, j).value !in roots
  {
    if pid in s.parent {
      var k := WalkUpNoRoot(s, roots, pid, fuel);
    }
  }

  lemma {:induction false} IdleClimbsToItself(s: Snapshot, j: nat)
    requires IdleIsOwnParent(s) && 0 in s.parent
    ensures Climb(s, 0, j) == Some(0)
    decreases j
  {
    if j > 0 {
      IdleClimbsToItself(s, j - 1);
    }
  }

  lemma {:induction false} WalkUpReaches(s: Snapshot, roots: set<Pid>, q: Pid, k: nat, fuel: nat)
    requires IdleIsOwnParent(s) && 0 !in roots
    requires q in s.parent && ClimbsTo(s, q, k, roots) && k <= fuel
    ensures WalkUp(s, roots, q, fuel).Found?
    decreases k
  {
    if q !in roots {
      var p := s.parent[q];
      assert k > 0;
      assert Climb(s, q, k) == Climb(s, p, k - 1);
      if p == 0 {
        IdleClimbsToItself(s, k - 1);
        assert false;
      }
      WalkUpReaches(s, roots, p, k - 1, fuel - 1);
    }
  }

  lemma {:induction false} ClimbPrefix(s: Snapshot, q: Pid, k: nat, j: nat)
    requires Climb(s, q, k).Some? && j <= k
    ensures Climb(s, q, j).Some?
    decreases j
  {
    if j > 0 {
      ClimbPrefix(s, s.parent[q], k - 1, j - 1);
    }
  }

  lemma {:induction false} ClimbCompose(s: Snapshot, q: Pid, a: nat, b: nat)
    requires Climb(s, q, a).Some?
    ensures Climb(s, q, a + b) == Climb(s, Climb(s, q, a).value, b)
    decreases a
  {
    if a > 0 {
      ClimbCompose(s, s.parent[q], a - 1, b);
    }
  }

  lemma {:induction false} Pigeonhole<T>(xs: seq<T>, A: set<T>) returns (i: nat, j: nat)
    requires forall k | 0 <= k < |xs| :: xs[k] in A
    requires |xs| > |A|
    ensures i < j < |xs| && xs[i] == xs[j]
    decreases |xs|
  {
    if xs[0] in xs[1..] {
      var m :| 1 <= m < |xs| && xs[m] == xs[0];
      i, j := 0, m;
    } else {
      var i', j' := Pigeonhole(xs[1..], A - {xs[0]});
      i, j := i' + 1, j' + 1;
    }
  }

  /** The first `n` ancestors-or-self of `q`. */
  function Path(s: Snapshot, q: Pid, n: nat): (p: seq<Pid>)
    requires n > 0 && Climb(s, q, n - 1).Some?
    ensures |p| == n
    ensures forall j | 0 <= j < n :: Climb(s, q, j) == Some(p[j]) && p[j] in s.parent
  {
    forall j | 0 <= j < n
      ensures Climb(s, q, j).Some?
    {
      ClimbPrefix(s, q, n - 1, j);
    }
    var p := seq(n, j requires 0 <= j < n => Climb(s, q, j).value);
    assert forall j | 0 <= j < n :: p[j] == Climb(s, q, j).value;
    p
  }

  /** Two of the first `n` ancestors coincide when `n` exceeds the number of
      live processes. */
  lemma LongChainRepeats(s: Snapshot, q: Pid, n: nat) returns (i: nat, j: nat)
    requires n > |s.parent.Keys| && Climb(s, q, n - 1).Some?
    ensures i < j < n && Climb(s, q, i) == Climb(s, q, j)
  {
    var p := Path(s, q, n);
    i, j := Pigeonhole(p, s.parent.Keys);
  }

  /** Any root reachable from `q` is reachable in fewer steps than there
      are live processes. */
  lemma {:induction false} ShortestChain(s: Snapshot, q: Pid, R: set<Pid>, k: nat) returns (k': nat)
    requires ClimbsTo(s, q, k, R)
    ensures k' < |s.parent.Keys| && ClimbsTo(s, q, k', R)
    decreases k
  {
    if k < |s.parent.Keys| {
      k' := k;
    } else {
      var i, j := LongChainRepeats(s, q, k + 1);
      ClimbPrefix(s, q, k, i);
      ClimbPrefix(s, q, k, j);
      var x := Climb(s, q, j).value;
      ClimbCompose(s, q, j, k - j);
      ClimbCompose(s, q, i, k - j);
      k' := ShortestChain(s, q, R, i + (k - j));
    }
  }

  /** With one step of fuel per live process, the walk resolves every
      tracked pid to a root: it neither returns None nor crashes nor loops. */
  lemma TrackedPidsResolve(s: Snapshot, roots: set<Pid>, pid: Pid)
    requires IdleIsOwnParent(s) && 0 !in roots
    requires pid in Tracked(s, roots)
    ensures FindRoot(s, roots, pid, |s.parent.Keys|).Found?
  {
    TrackedHasChain(s, roots, pid);
    var k: nat :| ClimbsTo(s, pid, k, roots);
    var k' := ShortestChain(s, pid, roots, k);
    WalkUpReaches(s, roots, pid, k', |s.parent.Keys|);
  }

  lemma {:induction false} WalkUpDivergesClimbs(s: Snapshot, roots: set<Pid>, q: Pid, fuel: nat)
    requires q in s.parent
    requires WalkUp(s, roots, q, fuel) == Diverges
    ensures Climb(s, q, fuel + 1).Some?
    decreases fuel
  {
    if fuel > 0 {
      WalkUpDivergesClimbs(s, roots, s.parent[q], fuel - 1);
    }
  }

  /** The walk runs out of one step of fuel per live process only when the
      parent chain revisits a pid: a cycle, where the source loops forever. */
  lemma DivergenceNeedsCycle(s: Snapshot, roots: set<Pid>, pid: Pid) returns (i: nat, j: nat)
    requires FindRoot(s, roots, pid, |s.parent.Keys|) == Diverges
    ensures i < j && Climb(s, pid, i).Some? && Climb(s, pid, i) == Climb(s, pid, j)
  {
    WalkUpDivergesClimbs(s, roots, pid, |s.parent.Keys|);
    i, j := LongChainRepeats(s, pid, |s.parent.Keys| + 2);
    ClimbPrefix(s, pid, |s.parent.Keys| + 1, i);
  }
}
