/** Folders as the scripts see them: a listing of entries, and the effect
    of the copy and move loops on a folder's contents. A folder's contents
    are a map from entry name to what the entry holds; what it holds is
    never inspected, only carried over. */
module FolderOps {

  /** One name from `os.listdir`, with what `os.path.isfile` says of it. */
  datatype Entry = Entry(name: string, isFile: bool)

  /** Name -> contents of the entries directly inside a folder. */
  type Folder = map<string, string>

  /** The names of a listing. */
  function Names(entries: seq<Entry>): (r: seq<string>)
    ensures |r| == |entries| && forall k | 0 <= k < |r| :: r[k] == entries[k].name
  {
    seq(|entries|, k requires 0 <= k < |entries| => entries[k].name)
  }

  /** A dict comprehension `{name: value for ...}` over pairs in order: a
      later pair with the same name replaces the earlier one. */
  function IndexByName<V>(pairs: seq<(string, V)>): (m: map<string, V>)
    ensures m.Keys == set k | 0 <= k < |pairs| :: pairs[k].0
    decreases |pairs|
  {
    if pairs == [] then map[]
    else
      var n := |pairs| - 1;
      var prev := IndexByName(pairs[..n]);
      assert forall k | 0 <= k < n :: pairs[..n][k] == pairs[k];
      assert (set k | 0 <= k < |pairs| :: pairs[k].0) == (set k | 0 <= k < n :: pairs[..n][k].0) + {pairs[n].0};
      prev[pairs[n].0 := pairs[n].1]
  }

  /** The value a name ends with is the one of its last pair. */
  lemma {:induction false} IndexByNameLastWins<V>(pairs: seq<(string, V)>, i: nat)
    requires i < |pairs|
    requires forall j | i < j < |pairs| :: pairs[j].0 != pairs[i].0
    ensures pairs[i].0 in IndexByName(pairs) && IndexByName(pairs)[pairs[i].0] == pairs[i].1
    decreases |pairs|
  {
    var n := |pairs| - 1;
    if i < n {
      assert pairs[..n][i] == pairs[i];
      assert forall j | i < j < n :: pairs[..n][j] == pairs[j];
      IndexByNameLastWins(pairs[..n], i);
    }
  }

  /** The names of `names` outside `failing`, split at the first one. */
  function Kept(names: seq<string>, failing: set<string>): set<string> {
    set k | 0 <= k < |names| && names[k] !in failing :: names[k]
  }

  lemma KeptStep(names: seq<string>, failing: set<string>)
    requires |names| > 0
    ensures Kept(names, failing) == (if names[0] in failing then {} else {names[0]}) + Kept(names[1..], failing)
  {
    assert forall k | 1 <= k < |names| :: names[k] == names[1..][k - 1];
  }

  /** A copy loop that skips names already present in the destination;
      a copy that fails (a name in `failing`) is reported and the loop goes
      on. */
  function CopySkipExisting(dest: Folder, src: Folder, names: seq<string>, failing: set<string>): (r: Folder)
    requires forall k | 0 <= k < |names| :: names[k] in src
    ensures r.Keys == dest.Keys + Kept(names, failing)
    ensures forall f | f in dest :: r[f] == dest[f]
    ensures forall f | f in r && f !in dest :: r[f] == src[f]
    decreases |names|
  {
    if names == [] then dest
    else
      var f := names[0];
      var next := if f !in dest && f !in failing then dest[f := src[f]] else dest;
      KeptStep(names, failing);
      CopySkipExisting(next, src, names[1..], failing)
  }

  /** The loop's counter, one per copy that succeeded, given the names
      present in the destination. */
  function CopiedCount(present: set<string>, names: seq<string>, failing: set<string>): nat
    decreases |names|
  {
    if names == [] then 0
    else
      var f := names[0];
      if f !in present && f !in failing then 1 + CopiedCount(present + {f}, names[1..], failing)
      else CopiedCount(present, names[1..], failing)
  }

  /** The counter equals the number of names the copy adds (see
      `CopySkipExisting`: its keys are the old ones plus `Kept`): a name
      listed twice is counted once, since its second copy finds it present. */
  lemma {:induction false} CountIsNewNames(present: set<string>, names: seq<string>, failing: set<string>)
    ensures CopiedCount(present, names, failing) == |Kept(names, failing) - present|
    decreases |names|
  {
    if names != [] {
      var f := names[0];
      KeptStep(names, failing);
      if f !in present && f !in failing {
        CountIsNewNames(present + {f}, names[1..], failing);
        assert Kept(names, failing) - present == {f} + (Kept(names[1..], failing) - (present + {f}));
      } else {
        CountIsNewNames(present, names[1..], failing);
        assert Kept(names, failing) - present == Kept(names[1..], failing) - present;
      }
    }
  }

  /** A copy loop that overwrites (`shutil.copy2`); a copy that fails is
      reported and the loop goes on. */
  function CopyOverwrite(dest: Folder, src: Folder, names: seq<string>, failing: set<string>): (r: Folder)
    requires forall k | 0 <= k < |names| :: names[k] in src
    ensures r.Keys == dest.Keys + Kept(names, failing)
    ensures forall k | 0 <= k < |names| && names[k] !in failing :: r[names[k]] == src[names[k]]
    ensures forall f | f in dest && f !in Kept(names, failing) :: r[f] == dest[f]
    decreases |names|
  {
    if names == [] then dest
    else
      var f := names[0];
      var next := if f in failing then dest else dest[f := src[f]];
      var rest := CopyOverwrite(next, src, names[1..], failing);
      KeptStep(names, failing);
      assert forall k | 1 <= k < |names| :: names[k] == names[1..][k - 1];
      rest
  }

  /** A move loop from `src` into `dest` that skips names already present
      in the destination; a move that fails leaves the entry where it was
      and the loop goes on. */
  function MoveSkipExisting(dest: Folder, src: Folder, names: seq<string>, failing: set<string>): (r: (Folder, Folder))
    requires forall k | 0 <= k < |names| :: names[k] in src || names[k] in dest
    ensures var moved := set k | 0 <= k < |names| && names[k] !in dest && names[k] !in failing :: names[k];
      && r.0.Keys == dest.Keys + moved
      && r.1.Keys == src.Keys - moved
    ensures forall f | f in dest :: r.0[f] == dest[f]
    ensures forall f | f in r.0 && f !in dest :: f in src && r.0[f] == src[f]
    ensures forall f | f in r.1 :: r.1[f] == src[f]
    decreases |names|
  {
    if names == [] then (dest, src)
    else
      var f := names[0];
      var moves := f !in dest && f !in failing;
      var rest := MoveSkipExisting(if moves then dest[f := src[f]] else dest,
                                   if moves then src - {f} else src,
                                   names[1..], failing);
      assert forall k | 1 <= k < |names| :: names[k] == names[1..][k - 1];
      rest
  }
}
