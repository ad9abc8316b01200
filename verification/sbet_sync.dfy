/** The SBET copy (`Copy_SBET.py`): directories of a tree walk are grouped
    by a flight key found in their names; in each group the first VNIR and
    the first SWIR directory are paired, and every SBET file of the VNIR
    directory is copied into the SWIR directory. */
module SbetSync {
  import opened Common
  import opened FolderOps

  // ---------------------------------------------------------------------
  // The flight key: `TECK_[tT]\d+(?:_F\d+)+_\d{4}_\d{2}_\d{2}`, searched
  // case-insensitively and upper-cased. Case-insensitive matching is
  // matching on the lower-cased name; digits and `_` have no case.
  // ---------------------------------------------------------------------

  /** The end of the maximal repetition of `_f<digits>` starting at `j` in
      lower-cased text. A repetition cannot stop inside a digit run, since
      what follows a group must be `_`, so the greedy run is the only one. */
  function FlightRunEnd(t: string, j: nat): (e: nat)
    requires j <= |t|
    ensures j <= e <= |t|
    decreases |t| - j
  {
    if j + 2 < |t| && t[j] == '_' && t[j + 1] == 'f' && IsDigit(t[j + 2]) then
      FlightRunEnd(t, DigitRunEnd(t, j + 2))
    else j
  }

  /** `_\d{4}_\d{2}_\d{2}` at position `p`. */
  predicate DateAt(t: string, p: nat) {
    p + 11 <= |t| && t[p] == '_' && DigitsOnly(t[p + 1..p + 5])
    && t[p + 5] == '_' && DigitsOnly(t[p + 6..p + 8])
    && t[p + 8] == '_' && DigitsOnly(t[p + 9..p + 11])
  }

  /** Where the pattern matched at position `i` of lower-cased text ends,
      if it matches there. */
  function MatchAt(t: string, i: nat): (r: Option<nat>)
    requires i <= |t|
    ensures r.Some? ==> i + 21 <= r.value <= |t| && OccursAt(t, "teck_t", i) && DateAt(t, r.value - 11)
  {
    if OccursAt(t, "teck_t", i) && i + 6 < |t| && IsDigit(t[i + 6]) then
      var d := DigitRunEnd(t, i + 6);
      var g := FlightRunEnd(t, d);
      if g > d && DateAt(t, g) then Some(g + 11) else None
    else None
  }

  /** `re.search`: the leftmost match at or after `from`. */
  function SearchFrom(t: string, from: nat): (r: Option<(nat, nat)>)
    requires from <= |t|
    ensures r.Some? ==> from <= r.value.0 <= |t| && MatchAt(t, r.value.0) == Some(r.value.1)
    ensures r.Some? ==> forall i: nat | from <= i < r.value.0 :: MatchAt(t, i).None?
    ensures r.None? ==> forall i: nat | from <= i <= |t| :: MatchAt(t, i).None?
    decreases |t| - from
  {
    match MatchAt(t, from)
    case Some(e) => Some((from, e))
    case None => if from == |t| then None else SearchFrom(t, from + 1)
  }

  /** The group key of a directory name: the leftmost match, upper-cased. */
  function KeyOf(name: string): (r: Option<string>)
    ensures r.Some? <==> exists i: nat | i <= |name| :: MatchAt(Lower(name), i).Some?
  {
    match SearchFrom(Lower(name), 0)
    case Some((i, e)) => Some(Upper(name[i..e]))
    case None => None
  }

  /** Two characters with the same lower-case form have the same
      upper-case form. */
  lemma SameFoldSameUpper(x: char, y: char)
    requires LowerChar(x) == LowerChar(y)
    ensures UpperChar(x) == UpperChar(y)
  {
  }

  /** The key of a name depends only on its case-folded form. */
  lemma KeyDependsOnFold(a: string, b: string)
    requires Lower(a) == Lower(b)
    ensures KeyOf(a) == KeyOf(b)
  {
    match SearchFrom(Lower(a), 0)
    case None =>
    case Some((i, e)) =>
      forall j | i <= j < e ensures UpperChar(a[j]) == UpperChar(b[j]) {
        assert Lower(a)[j] == Lower(b)[j];
        SameFoldSameUpper(a[j], b[j]);
      }
      assert Upper(a[i..e]) == Upper(b[i..e]);
  }

  lemma LowerOfUpperChar(c: char)
    ensures LowerChar(UpperChar(c)) == LowerChar(c)
  {
  }

  lemma LowerOfUpper(s: string)
    ensures Lower(Upper(s)) == Lower(s)
  {
    forall j | 0 <= j < |s| ensures Lower(Upper(s))[j] == Lower(s)[j] {
      LowerOfUpperChar(s[j]);
    }
  }

  /** The key does not depend on the case of the name. */
  lemma KeyIgnoresCase(name: string)
    ensures KeyOf(Lower(name)) == KeyOf(name)
    ensures KeyOf(Upper(name)) == KeyOf(name)
  {
    assert Lower(Lower(name)) == Lower(name);
    KeyDependsOnFold(Lower(name), name);
    LowerOfUpper(name);
    KeyDependsOnFold(Upper(name), name);
  }

  /** The upper-cased text of a match starts with `TECK_T`. */
  lemma MatchedShape(name: string, i: nat, e: nat)
    requires i <= e <= |name| && MatchAt(Lower(name), i) == Some(e)
    ensures var k := Upper(name[i..e]);
      && StartsWith(k, "TECK_T") && |k| >= 21 && Upper(k) == k
  {
    var w := name[i..e];
    var k := Upper(w);
    assert Lower(name)[i..i + 6] == "teck_t";
    forall j | 0 <= j < 6 ensures LowerChar(w[j]) == "teck_t"[j] {
      assert Lower(name)[i + j] == LowerChar(w[j]);
    }
    forall j | 0 <= j < 6 ensures k[j] == "TECK_T"[j] {
      assert LowerChar(w[j]) == "teck_t"[j];
    }
    assert k[..6] == "TECK_T";
  }

  /** A key is upper-case, starts with `TECK_T` and is at least as long as
      the shortest match. */
  lemma KeyShape(name: string)
    requires KeyOf(name).Some?
    ensures var k := KeyOf(name).value;
      && StartsWith(k, "TECK_T") && |k| >= 21 && Upper(k) == k
  {
    var (i, e) := SearchFrom(Lower(name), 0).value;
    MatchedShape(name, i, e);
  }

  // ---------------------------------------------------------------------
  // The index: key -> the paths of the directories that carry it, in walk
  // order.
  // ---------------------------------------------------------------------

  /** A walked directory: its name and its full path. */
  type WalkedDir = (string, string)

  predicate HasKey(d: WalkedDir, k: string) {
    KeyOf(d.0) == Some(k)
  }

  /** The test `KeyOf(d.0) == Some(k)` as a value. */
  function Carries(k: string): WalkedDir -> bool {
    (d: WalkedDir) => HasKey(d, k)
  }

  /** The paths of a sequence of walked directories. */
  function Paths(ds: seq<WalkedDir>): (r: seq<string>)
    ensures |r| == |ds| && forall i | 0 <= i < |ds| :: r[i] == ds[i].1
  {
    seq(|ds|, i requires 0 <= i < |ds| => ds[i].1)
  }

  /** The paths the index holds for `k`, as a comprehension. */
  function PathsFor(walk: seq<WalkedDir>, k: string): seq<string> {
    Paths(Filter(walk, Carries(k)))
  }

  /** `data_index` built by appending each keyed directory's path to its
      key's list. */
  function GroupIndex(walk: seq<WalkedDir>): (g: map<string, seq<string>>)
    decreases |walk|
  {
    if walk == [] then map[]
    else
      var rest := GroupIndex(walk[1..]);
      match KeyOf(walk[0].0)
      case None => rest
      case Some(k) => rest[k := [walk[0].1] + (if k in rest then rest[k] else [])]
  }

  /** The index holds exactly the keys found, and for each one the paths of
      the directories carrying it, in walk order. */
  ghost predicate IndexIsComprehension(walk: seq<WalkedDir>) {
    && (forall k :: k in GroupIndex(walk) <==> exists i | 0 <= i < |walk| :: HasKey(walk[i], k))
    && (forall k | k in GroupIndex(walk) :: GroupIndex(walk)[k] == PathsFor(walk, k))
  }

  lemma {:induction false} GroupIndexIsComprehension(walk: seq<WalkedDir>)
    ensures IndexIsComprehension(walk)
    decreases |walk|
  {
    if walk != [] {
      GroupIndexIsComprehension(walk[1..]);
      GroupIndexStep(walk);
    }
  }

  lemma GroupIndexStep(walk: seq<WalkedDir>)
    requires walk != [] && IndexIsComprehension(walk[1..])
    ensures IndexIsComprehension(walk)
  {
    var rest := walk[1..];
    var g, gr := GroupIndex(walk), GroupIndex(rest);
    forall k
      ensures (k in g <==> exists i | 0 <= i < |walk| :: HasKey(walk[i], k))
      ensures k in g ==> g[k] == PathsFor(walk, k)
    {
      FoundInStep(walk, k);
      PathsForStep(walk, k);
      if k !in gr {
        FilterNone(rest, Carries(k));
      }
    }
  }

  /** A key is carried in the walk exactly when the first directory or one
      of the others carries it. */
  lemma FoundInStep(walk: seq<WalkedDir>, k: string)
    requires walk != []
    ensures (exists i | 0 <= i < |walk| :: HasKey(walk[i], k))
        <==> HasKey(walk[0], k) || exists j | 0 <= j < |walk[1..]| :: HasKey(walk[1..][j], k)
  {
    if exists i | 0 <= i < |walk| :: HasKey(walk[i], k) {
      var i :| 0 <= i < |walk| && HasKey(walk[i], k);
      if i > 0 {
        assert walk[1..][i - 1] == walk[i];
      }
    }
    if exists j | 0 <= j < |walk[1..]| :: HasKey(walk[1..][j], k) {
      var j :| 0 <= j < |walk[1..]| && HasKey(walk[1..][j], k);
      assert walk[j + 1] == walk[1..][j];
    }
  }

  lemma PathsForStep(walk: seq<WalkedDir>, k: string)
    requires walk != []
    ensures PathsFor(walk, k) == (if HasKey(walk[0], k) then [walk[0].1] else []) + PathsFor(walk[1..], k)
  {
    PathsOfFilterStep(walk, Carries(k));
    assert Carries(k)(walk[0]) == HasKey(walk[0], k);
  }

  /** Filtering then taking paths, one directory at a time. */
  lemma PathsOfFilterStep(walk: seq<WalkedDir>, p: WalkedDir -> bool)
    requires walk != []
    ensures Paths(Filter(walk, p)) == (if p(walk[0]) then [walk[0].1] else []) + Paths(Filter(walk[1..], p))
  {
    var head: seq<WalkedDir> := if p(walk[0]) then [walk[0]] else [];
    FilterCons(walk, p);
    PathsAppend(head, Filter(walk[1..], p));
    assert Paths(head) == if p(walk[0]) then [walk[0].1] else [];
  }

  lemma PathsAppend(a: seq<WalkedDir>, b: seq<WalkedDir>)
    ensures Paths(a + b) == Paths(a) + Paths(b)
  {
  }

  /** With no keyed directory the index is empty and the run does nothing. */
  lemma EmptyIndex(walk: seq<WalkedDir>)
    requires forall i | 0 <= i < |walk| :: KeyOf(walk[i].0).None?
    ensures GroupIndex(walk) == map[]
  {
    GroupIndexIsComprehension(walk);
  }

  // ---------------------------------------------------------------------
  // One group.
  // ---------------------------------------------------------------------

  /** `next(p for p in paths if tag in p.upper())`, as an index. */
  function FirstTagged(paths: seq<string>, tag: string): (r: Option<nat>)
    ensures r.Some? ==> r.value < |paths| && Contains(Upper(paths[r.value]), tag)
    ensures r.Some? ==> forall j | 0 <= j < r.value :: !Contains(Upper(paths[j]), tag)
    ensures r.None? <==> forall j | 0 <= j < |paths| :: !Contains(Upper(paths[j]), tag)
  {
    if paths == [] then None
    else if Contains(Upper(paths[0]), tag) then Some(0)
    else
      assert forall j | 1 <= j < |paths| :: paths[j] == paths[1..][j - 1];
      match FirstTagged(paths[1..], tag)
      case None => None
      case Some(j) => Some(j + 1)
  }

  /** An SBET file: the lower-cased name starts with `sbet`. */
  predicate IsSbetName(f: string) {
    StartsWith(Lower(f), "sbet")
  }

  /** What the run does for one group. */
  datatype GroupPlan =
    | NoPair
    | ListingFailed
    | NoSbet
    | CopySbet(vnir: string, swir: string, files: seq<string>)

  /** The plan for a group's paths; `listdir` gives a folder's names, or
      `None` when it cannot be listed. */
  function PlanGroup(paths: seq<string>, listdir: string -> Option<seq<string>>): (r: GroupPlan)
    ensures r.NoPair? <==>
      (forall j | 0 <= j < |paths| :: !Contains(Upper(paths[j]), "VNIR")) ||
      (forall j | 0 <= j < |paths| :: !Contains(Upper(paths[j]), "SWIR"))
    ensures r.ListingFailed? || r.NoSbet? || r.CopySbet? ==>
      var v := FirstTagged(paths, "VNIR").value;
      listdir(paths[v]).None? <==> r.ListingFailed?
    ensures r.CopySbet? ==>
      && r.vnir == paths[FirstTagged(paths, "VNIR").value]
      && r.swir == paths[FirstTagged(paths, "SWIR").value]
      && listdir(r.vnir).Some?
      && r.files != []
      && (forall i | 0 <= i < |r.files| :: r.files[i] in listdir(r.vnir).value && IsSbetName(r.files[i]))
      && (forall i | 0 <= i < |listdir(r.vnir).value| && IsSbetName(listdir(r.vnir).value[i]) ::
            listdir(r.vnir).value[i] in r.files)
    ensures r.NoSbet? ==>
      var v := paths[FirstTagged(paths, "VNIR").value];
      listdir(v).Some? && forall i | 0 <= i < |listdir(v).value| :: !IsSbetName(listdir(v).value[i])
  {
    match (FirstTagged(paths, "VNIR"), FirstTagged(paths, "SWIR"))
    case (Some(v), Some(s)) =>
      (match listdir(paths[v])
       case None => ListingFailed
       case Some(names) =>
         var files := Filter(names, (f: string) => IsSbetName(f));
         if files == [] then NoSbet else CopySbet(paths[v], paths[s], files))
    case _ => NoPair
  }

  /** Carrying out a plan: each SBET file is copied under its own name into
      the SWIR folder, replacing one there; a failed copy is reported and
      the others go on. */
  function CopyGroup(vnir: Folder, swir: Folder, files: seq<string>, failing: set<string>): (r: Folder)
    requires forall i | 0 <= i < |files| :: files[i] in vnir
    ensures r.Keys == swir.Keys + Kept(files, failing)
    ensures forall i | 0 <= i < |files| && files[i] !in failing :: r[files[i]] == vnir[files[i]]
    ensures forall f | f in swir && f !in Kept(files, failing) :: r[f] == swir[f]
  {
    CopyOverwrite(swir, vnir, files, failing)
  }

  /** End to end for one group: after the copy, the SWIR folder holds every
      SBET file of the VNIR folder's listing that did not fail, with the
      VNIR contents. */
  lemma SbetFilesArrive(paths: seq<string>, listdir: string -> Option<seq<string>>,
                        vnir: Folder, swir: Folder, failing: set<string>)
    requires PlanGroup(paths, listdir).CopySbet?
    requires var p := PlanGroup(paths, listdir);
      forall i | 0 <= i < |listdir(p.vnir).value| :: listdir(p.vnir).value[i] in vnir
    ensures var p := PlanGroup(paths, listdir);
      var names := listdir(p.vnir).value;
      forall i | 0 <= i < |names| && IsSbetName(names[i]) && names[i] !in failing ::
        var r := CopyGroup(vnir, swir, p.files, failing);
        names[i] in r && r[names[i]] == vnir[names[i]]
  {
    var p := PlanGroup(paths, listdir);
    var names := listdir(p.vnir).value;
    forall i | 0 <= i < |names| && IsSbetName(names[i]) && names[i] !in failing
      ensures var r := CopyGroup(vnir, swir, p.files, failing); names[i] in r && r[names[i]] == vnir[names[i]]
    {
      var j :| 0 <= j < |p.files| && p.files[j] == names[i];
    }
  }
}
