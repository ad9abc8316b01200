/** Three scripts that pair folders by name and then copy or move their
    contents: the metadata sync (`moving_txt_files.py`), the same-name merge
    (`copy_contents_same_folder_name.py`) and the SBET copy (`Copy_SBET.py`).
    A directory tree walk is given as the sequence of (name, path) pairs it
    yields; a folder's contents are a `FolderOps.Folder`. */
module FolderSync {
  import opened Common
  import opened FolderOps

  // ---------------------------------------------------------------------
  // Metadata sync: A's folder `n` receives the metadata of B's `RAW_n`.
  // ---------------------------------------------------------------------

  /** The subfolder index of a walk: name -> path, a later folder of the
      same name replacing an earlier one. */
  function SubfolderIndex(walk: seq<(string, string)>): (index: map<string, string>)
    ensures index.Keys == set k | 0 <= k < |walk| :: walk[k].0
    ensures forall k | 0 <= k < |walk| && (forall j | k < j < |walk| :: walk[j].0 != walk[k].0) ::
      index[walk[k].0] == walk[k].1
  {
    forall k | 0 <= k < |walk| && (forall j | k < j < |walk| :: walk[j].0 != walk[k].0)
      ensures IndexByName(walk)[walk[k].0] == walk[k].1
    {
      IndexByNameLastWins(walk, k);
    }
    IndexByName(walk)
  }

  /** The name of the source folder that pairs with destination folder `n`:
      the marker is a prefix. */
  function RawPartner(n: string): (b: string)
    ensures StartsWith(b, "RAW_") && b[4..] == n
  {
    "RAW_" + n
  }

  /** The destination folders that have a partner in the source tree. */
  function SyncPairs(a: map<string, string>, b: map<string, string>): (pairs: set<string>)
    ensures forall n :: n in pairs <==> n in a && RawPartner(n) in b
  {
    set n | n in a && RawPartner(n) in b
  }

  /** A source folder whose name carries the marker only as a suffix pairs
      with nothing unless it also starts with it. */
  lemma SuffixMarkerDoesNotPair(a: map<string, string>, b: map<string, string>)
    requires forall f | f in b :: !StartsWith(f, "RAW_")
    ensures SyncPairs(a, b) == {}
  {
  }

  /** A file the sync copies: a `.txt` extension in any case, or the
      case-sensitive `sceneWhiteReference` anywhere in the name. */
  predicate IsTargetFile(f: string) {
    EndsWith(Lower(f), ".txt") || Contains(f, "sceneWhiteReference")
  }

  /** Lower-casing an upper-cased ASCII name gives the lower-cased name. */
  lemma LowerOfUpper(f: string)
    ensures Lower(Upper(f)) == Lower(f)
  {
  }

  /** The extension test ignores case: upper-casing a name keeps a `.txt`
      file a target. */
  lemma ExtensionIgnoresCase(f: string)
    requires EndsWith(Lower(f), ".txt")
    ensures IsTargetFile(Upper(f))
  {
    LowerOfUpper(f);
  }

  /** What happens to one pair. */
  datatype SyncOutcome =
    | EmptySource
    | Synced(dest: Folder, copied: nat)

  /** One pair: the source folder's listing `names` (with contents `src`),
      the destination's contents `dest`; copies in `failing` raise and are
      reported. Existing destination names are skipped, and the count is
      of successful copies. */
  function SyncPair(dest: Folder, src: Folder, names: seq<string>, failing: set<string>): (r: SyncOutcome)
    requires forall k | 0 <= k < |names| :: names[k] in src
    ensures r.EmptySource? <==> names == []
    ensures r.Synced? ==>
      var targets := set k | 0 <= k < |names| && IsTargetFile(names[k]) && names[k] !in failing :: names[k];
      && r.dest.Keys == dest.Keys + targets
      && (forall f | f in dest :: r.dest[f] == dest[f])
      && (forall f | f in r.dest && f !in dest :: r.dest[f] == src[f])
      && r.copied == |targets - dest.Keys|
  {
    if names == [] then EmptySource
    else
      var targets := Filter(names, (f: string) => IsTargetFile(f));
      CountIsNewNames(dest.Keys, targets, failing);
      assert Kept(targets, failing) ==
        set k | 0 <= k < |names| && IsTargetFile(names[k]) && names[k] !in failing :: names[k];
      Synced(CopySkipExisting(dest, src, targets, failing), CopiedCount(dest.Keys, targets, failing))
  }

  /** A source listing with no target file copies nothing and counts
      nothing, even if it is not empty. */
  lemma NoTargetNoCopy(dest: Folder, src: Folder, names: seq<string>, failing: set<string>)
    requires forall k | 0 <= k < |names| :: names[k] in src
    requires names != [] && forall k | 0 <= k < |names| :: !IsTargetFile(names[k])
    ensures SyncPair(dest, src, names, failing) == Synced(dest, 0)
  {
  }

  // ---------------------------------------------------------------------
  // Same-name merge: B's subfolder `n` is moved into A's subfolder `n`.
  // ---------------------------------------------------------------------

  /** The names of A's listing that are directories in A and have a
      directory of the same name in B, in listing order. */
  function MergePairs(aNames: seq<string>, aDirs: set<string>, bDirs: set<string>): (r: seq<string>)
    ensures forall i | 0 <= i < |r| :: r[i] in aNames && r[i] in aDirs && r[i] in bDirs
    ensures forall k | 0 <= k < |aNames| && aNames[k] in aDirs && aNames[k] in bDirs :: aNames[k] in r
  {
    Filter(aNames, (n: string) => n in aDirs && n in bDirs)
  }

  /** `found_match`: some directory of A has a same-name directory in B. */
  function FoundMatch(aNames: seq<string>, aDirs: set<string>, bDirs: set<string>): (b: bool)
    ensures b <==> exists k | 0 <= k < |aNames| :: aNames[k] in aDirs && aNames[k] in bDirs
  {
    var pairs := MergePairs(aNames, aDirs, bDirs);
    if pairs != [] then
      assert pairs[0] in aNames;
      true
    else false
  }

  /** Merging one pair: every item of B's subfolder is moved unless A's
      subfolder already holds that name; a failed move leaves the item. */
  function MergePair(a: Folder, b: Folder, items: seq<string>, failing: set<string>): (r: (Folder, Folder))
    requires forall k | 0 <= k < |items| :: items[k] in b
    ensures var moved := set k | 0 <= k < |items| && items[k] !in a && items[k] !in failing :: items[k];
      && r.0.Keys == a.Keys + moved
      && r.1.Keys == b.Keys - moved
    ensures forall f | f in a :: r.0[f] == a[f]
    ensures forall f | f in r.0 && f !in a :: r.0[f] == b[f]
    ensures forall f | f in r.1 :: r.1[f] == b[f]
  {
    MoveSkipExisting(a, b, items, failing)
  }

  /** When every move succeeds, A ends with the union of both name sets and
      B keeps exactly the names that clashed. */
  lemma MergeWithoutFailures(a: Folder, b: Folder, items: seq<string>)
    requires forall k | 0 <= k < |items| :: items[k] in b
    requires forall f | f in b :: f in items
    ensures MergePair(a, b, items, {}).0.Keys == a.Keys + b.Keys
    ensures MergePair(a, b, items, {}).1.Keys == a.Keys * b.Keys
  {
    var moved := set k | 0 <= k < |items| && items[k] !in a :: items[k];
    assert moved == b.Keys - a.Keys by {
      forall f | f in b.Keys - a.Keys ensures f in moved {
        var k :| 0 <= k < |items| && items[k] == f;
      }
    }
  }
}
