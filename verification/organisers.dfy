/** The folder organisers that split one capture folder into a sibling:
    move_raw_data.py (`organize_raw_files`) sends everything but the
    reflectance products to `<name>_RAW`, move_Rf_Data.py
    (`organize_rf_files`) sends the reflectance products to `<name>_RF`, and
    split_flight_into_flightlines.py (`organize_flight_data`) files each
    `raw_<n>_..._igm` product into `Flight_<last three digits of n>`. Each is
    modelled as the plan it makes for one listed subfolder. */
module Organisers {
  import opened Common
  import opened FolderOps

  lemma EndsWithSuffix(s: string, t: string)
    ensures EndsWith(s + t, t)
  {
    assert (s + t)[|s + t| - |t|..] == t;
  }

  // ---- move_raw_data.py ----

  predicate HasRf(f: string) {
    Contains(f, "_rf")
  }

  /** A regular file the organiser copies: the trajectory files. */
  predicate IsSbetFile(e: Entry) {
    e.isFile && StartsWith(e.name, "SBET_")
  }

  /** A regular file the organiser moves: neither trajectory nor
      reflectance. */
  predicate IsRawFile(e: Entry) {
    e.isFile && !StartsWith(e.name, "SBET_") && !HasRf(e.name)
  }

  /** The folder holds a mix: some listed name without `_rf` and some
      with it. */
  predicate RawTrigger(entries: seq<Entry>) {
    (exists k | 0 <= k < |entries| :: !HasRf(entries[k].name)) && (exists k | 0 <= k < |entries| :: HasRf(entries[k].name))
  }

  /** What `organize_raw_files` does with one subfolder. */
  datatype RawPlan =
    | SkipRawOutput
    | RawNotTriggered
    | NothingToDo
    | MakeRaw(dest: string, copies: seq<Entry>, moves: seq<Entry>)

  /** The files planned for copying: exactly the trajectory files. */
  function RawCopies(entries: seq<Entry>): (r: seq<Entry>)
    ensures forall i | 0 <= i < |r| :: r[i] in entries && IsSbetFile(r[i])
    ensures forall k | 0 <= k < |entries| && IsSbetFile(entries[k]) :: entries[k] in r
  {
    Filter(entries, IsSbetFile)
  }

  /** The files planned for moving: exactly the files that are neither
      trajectory nor reflectance. */
  function RawMoves(entries: seq<Entry>): (r: seq<Entry>)
    ensures forall i | 0 <= i < |r| :: r[i] in entries && IsRawFile(r[i])
    ensures forall k | 0 <= k < |entries| && IsRawFile(entries[k]) :: entries[k] in r
  {
    Filter(entries, IsRawFile)
  }

  /** The plan for subfolder `name` whose listing is `entries`. The trigger
      looks at every listed name, directories included; the copy and move
      lists only at regular files, trajectory files first. */
  function PlanRaw(name: string, entries: seq<Entry>): (p: RawPlan)
    ensures p.SkipRawOutput? <==> EndsWith(name, "_RAW")
    ensures p.RawNotTriggered? <==> !EndsWith(name, "_RAW") && !RawTrigger(entries)
    ensures p.NothingToDo? <==> !EndsWith(name, "_RAW") && RawTrigger(entries) && RawCopies(entries) == [] && RawMoves(entries) == []
    ensures p.MakeRaw? ==> p.dest == name + "_RAW" && p.copies == RawCopies(entries) && p.moves == RawMoves(entries)
  {
    var names := Names(entries);
    if EndsWith(name, "_RAW") then SkipRawOutput
    else if !(Any(names, f => !HasRf(f)) && Any(names, HasRf)) then RawNotTriggered
    else if RawCopies(entries) == [] && RawMoves(entries) == [] then NothingToDo
    else MakeRaw(name + "_RAW", RawCopies(entries), RawMoves(entries))
  }

  /** Every listed entry falls in exactly one class: copied (a trajectory
      file), moved, or left in place (a reflectance file or not a regular
      file at all). */
  lemma RawPartition(entries: seq<Entry>, k: nat)
    requires k < |entries|
    ensures entries[k] in RawCopies(entries) <==> IsSbetFile(entries[k])
    ensures entries[k] in RawMoves(entries) <==> IsRawFile(entries[k])
    ensures !(entries[k] in RawCopies(entries) && entries[k] in RawMoves(entries))
    ensures entries[k] !in RawCopies(entries) && entries[k] !in RawMoves(entries) <==>
      !entries[k].isFile || (!StartsWith(entries[k].name, "SBET_") && HasRf(entries[k].name))
  {
  }

  /** The folder the organiser creates is never processed itself. */
  lemma RawOutputIsSkipped(name: string, entries: seq<Entry>)
    ensures PlanRaw(name + "_RAW", entries).SkipRawOutput?
  {
    EndsWithSuffix(name, "_RAW");
  }

  /** The listing left behind once the planned moves are done. */
  function After(entries: seq<Entry>, moves: seq<Entry>): (r: seq<Entry>)
    ensures forall i | 0 <= i < |r| :: r[i] in entries && r[i] !in moves
    ensures forall k | 0 <= k < |entries| && entries[k] !in moves :: entries[k] in r
  {
    Filter(entries, (e: Entry) => e !in moves)
  }

  lemma NoRawFileNoMove(entries: seq<Entry>)
    requires forall i | 0 <= i < |entries| :: !IsRawFile(entries[i])
    ensures RawMoves(entries) == []
  {
    FilterNone(entries, IsRawFile);
  }

  /** Running the organiser again over a folder it has just emptied moves
      nothing more: every file left is a trajectory or reflectance file. */
  lemma {:induction false} SecondRawRunMovesNothing(name: string, entries: seq<Entry>)
    requires PlanRaw(name, entries).MakeRaw?
    ensures var again := PlanRaw(name, After(entries, PlanRaw(name, entries).moves));
      !again.MakeRaw? || again.moves == []
  {
    var after := After(entries, RawMoves(entries));
    NoRawFileNoMove(after);
  }

  /** The subfolders `os.walk` still descends into: a subfolder whose files
      were split off is removed from the walk. */
  function DescendRaw(dirnames: seq<string>, listing: string -> seq<Entry>): (r: seq<string>)
    ensures forall i | 0 <= i < |r| :: r[i] in dirnames && !PlanRaw(r[i], listing(r[i])).MakeRaw?
    ensures forall k | 0 <= k < |dirnames| && !PlanRaw(dirnames[k], listing(dirnames[k])).MakeRaw? :: dirnames[k] in r
  {
    Filter(dirnames, d => !PlanRaw(d, listing(d)).MakeRaw?)
  }

  // ---- move_Rf_Data.py ----

  /** A reflectance name for the trigger: `_rf` or `rf.hdr` at the end,
      ignoring case. */
  predicate IsRfName(f: string) {
    EndsWith(Lower(f), "_rf") || EndsWith(Lower(f), "rf.hdr")
  }

  /** A reflectance name for the move list, which also takes `rf.bin`. */
  predicate IsRfMoveName(f: string) {
    IsRfName(f) || EndsWith(Lower(f), "rf.bin")
  }

  predicate IsRfMoveFile(e: Entry) {
    e.isFile && IsRfMoveName(e.name)
  }

  /** The folder holds a reflectance product and an IGM product. */
  predicate RfTrigger(entries: seq<Entry>) {
    (exists k | 0 <= k < |entries| :: IsRfName(entries[k].name)) && (exists k | 0 <= k < |entries| :: Contains(Lower(entries[k].name), "_igm"))
  }

  /** What `organize_rf_files` does with one subfolder. */
  datatype RfPlan =
    | SkipRfOutput
    | RfNotTriggered
    | NothingToMove
    | MakeRf(dest: string, moves: seq<Entry>)

  /** The files planned for moving: exactly the reflectance files,
      `rf.bin` included. */
  function RfMoves(entries: seq<Entry>): (r: seq<Entry>)
    ensures forall i | 0 <= i < |r| :: r[i] in entries && IsRfMoveFile(r[i])
    ensures forall k | 0 <= k < |entries| && IsRfMoveFile(entries[k]) :: entries[k] in r
  {
    Filter(entries, IsRfMoveFile)
  }

  function PlanRf(name: string, entries: seq<Entry>): (p: RfPlan)
    ensures p.SkipRfOutput? <==> EndsWith(name, "_RF")
    ensures p.RfNotTriggered? <==> !EndsWith(name, "_RF") && !RfTrigger(entries)
    ensures p.NothingToMove? <==> !EndsWith(name, "_RF") && RfTrigger(entries) && RfMoves(entries) == []
    ensures p.MakeRf? ==> p.dest == name + "_RF" && p.moves == RfMoves(entries) && p.moves != []
  {
    var names := Names(entries);
    if EndsWith(name, "_RF") then SkipRfOutput
    else if !(Any(names, IsRfName) && Any(names, f => Contains(Lower(f), "_igm"))) then RfNotTriggered
    else if RfMoves(entries) == [] then NothingToMove
    else MakeRf(name + "_RF", RfMoves(entries))
  }

  /** The folder the organiser creates is never processed itself. */
  lemma RfOutputIsSkipped(name: string, entries: seq<Entry>)
    ensures PlanRf(name + "_RF", entries).SkipRfOutput?
  {
    EndsWithSuffix(name, "_RF");
  }

  lemma NoRfFileNoMove(entries: seq<Entry>)
    requires forall i | 0 <= i < |entries| :: !IsRfMoveFile(entries[i])
    ensures RfMoves(entries) == []
  {
    FilterNone(entries, IsRfMoveFile);
  }

  /** Running the organiser again over a folder it has just processed
      finds nothing to move. */
  lemma {:induction false} SecondRfRunMovesNothing(name: string, entries: seq<Entry>)
    requires PlanRf(name, entries).MakeRf?
    ensures !PlanRf(name, After(entries, PlanRf(name, entries).moves)).MakeRf?
  {
    var after := After(entries, RfMoves(entries));
    NoRfFileNoMove(after);
  }

  /** `rf.bin` files are moved but do not trigger: a folder holding only
      IGM and `rf.bin` files is left as it is. */
  lemma RfBinAloneDoesNotTrigger()
    ensures PlanRf("F1", [Entry("a_igm", true), Entry("a_rf.bin", true)]).RfNotTriggered?
    ensures IsRfMoveName("a_rf.bin")
  {
    var entries := [Entry("a_igm", true), Entry("a_rf.bin", true)];
    assert !EndsWith("F1", "_RF");
    assert !IsRfName("a_igm") by {
      assert Lower("a_igm") == "a_igm";
      assert "a_igm"[2..] != "_rf";
    }
    assert !IsRfName("a_rf.bin") && IsRfMoveName("a_rf.bin") by {
      assert Lower("a_rf.bin") == "a_rf.bin";
      assert "a_rf.bin"[5..] != "_rf" && "a_rf.bin"[2..] != "rf.hdr" && "a_rf.bin"[2..] == "rf.bin";
    }
    assert !RfTrigger(entries);
  }

  /** The subfolders `os.walk` still descends into. */
  function DescendRf(dirnames: seq<string>, listing: string -> seq<Entry>): (r: seq<string>)
    ensures forall i | 0 <= i < |r| :: r[i] in dirnames && !PlanRf(r[i], listing(r[i])).MakeRf?
    ensures forall k | 0 <= k < |dirnames| && !PlanRf(dirnames[k], listing(dirnames[k])).MakeRf? :: dirnames[k] in r
  {
    Filter(dirnames, d => !PlanRf(d, listing(d)).MakeRf?)
  }

  // ---- split_flight_into_flightlines.py ----

  /** A primary product name: `raw_..._igm`. */
  predicate PrimaryName(f: string) {
    StartsWith(f, "raw_") && EndsWith(f, "_igm")
  }

  /** `is_primary_file`. Its extra test that the name does not end in
      `.hdr` never rejects anything: a name ending in `_igm` cannot. */
  function IsPrimary(e: Entry): (b: bool)
    ensures b <==> e.isFile && PrimaryName(e.name)
  {
    IgmIsNotHdr(e.name);
    e.isFile && StartsWith(e.name, "raw_") && EndsWith(e.name, "_igm") && !EndsWith(e.name, ".hdr")
  }

  lemma IgmIsNotHdr(f: string)
    ensures EndsWith(f, "_igm") ==> !EndsWith(f, ".hdr")
  {
    if EndsWith(f, "_igm") {
      assert f[|f| - 1] == 'm';
    }
  }

  /** `filename.split('_')[1]`: the text between the first and the second
      underscore (or the end). A name starting with `raw_` always has it,
      so the source's `len(parts) > 1` test always passes. */
  function SecondToken(f: string): (t: string)
    requires StartsWith(f, "raw_")
    ensures 4 + |t| <= |f| && f[4..4 + |t|] == t
    ensures forall j | 0 <= j < |t| :: t[j] != '_'
    ensures 4 + |t| == |f| || f[4 + |t|] == '_'
  {
    assert f[..4] == "raw_";
    assert forall j | 0 <= j < 3 :: f[j] != '_';
    SplitAfter(f, '_', 3);
    var parts := Split(f, '_');
    assert |parts| >= 2 && parts[1] == Split(f[4..], '_')[0];
    SplitFirst(f[4..], '_');
    parts[1]
  }

  /** `Flight_` followed by the last three characters of the number. */
  function FlightFolder(f: string): (d: string)
    requires StartsWith(f, "raw_")
    ensures StartsWith(d, "Flight_") && |d| <= 10 && EndsWith(SecondToken(f), d[7..])
  {
    var d := "Flight_" + LastChars(SecondToken(f), 3);
    assert d[..7] == "Flight_" && d[7..] == LastChars(SecondToken(f), 3);
    d
  }

  /** The second token is the number written after `raw_`, whatever
      follows it from the next underscore on. */
  lemma {:induction false} SecondTokenOf(n: string, rest: string)
    requires forall j | 0 <= j < |n| :: n[j] != '_'
    requires rest == [] || rest[0] == '_'
    ensures SecondToken("raw_" + n + rest) == n
  {
    var f := "raw_" + n + rest;
    assert f[..4] == "raw_";
    assert forall j | 0 <= j < 3 :: f[j] != '_';
    SplitAfter(f, '_', 3);
    assert f[4..] == n + rest;
    if rest == [] {
      assert n + rest == n;
      assert FirstIndexOf(n, '_') == None;
    } else {
      assert (n + rest)[|n|] == '_';
      SplitAfter(n + rest, '_', |n|);
      assert (n + rest)[..|n|] == n;
    }
  }

  /** The group folder is named after the last three characters of the
      number: `raw_13000_rd_rf_igm` goes to `Flight_000`. */
  lemma FlightFolderOf(n: string, rest: string)
    requires forall j | 0 <= j < |n| :: n[j] != '_'
    requires rest == [] || rest[0] == '_'
    ensures FlightFolder("raw_" + n + rest) == "Flight_" + LastChars(n, 3)
  {
    SecondTokenOf(n, rest);
  }

  /** One move of `organize_flight_data`: an entry into a group folder. */
  datatype FlightMove = FlightMove(name: string, folder: string)

  /** The header of a primary product. */
  function HeaderOf(f: string): string {
    f + ".hdr"
  }

  /** The moves for one primary product: itself, then its header when a
      header of that name exists. */
  function OwnMoves(name: string, folder: string, withHeader: bool): (r: seq<FlightMove>)
    ensures FlightMove(name, folder) in r
    ensures withHeader <==> FlightMove(HeaderOf(name), folder) in r
    ensures forall m | m in r :: m.folder == folder && (m.name == name || (withHeader && m.name == HeaderOf(name)))
  {
    assert |HeaderOf(name)| == |name| + 4;
    [FlightMove(name, folder)] + (if withHeader then [FlightMove(HeaderOf(name), folder)] else [])
  }

  /** The moves of `organize_flight_data` for the entries of a listing,
      given every name listed: each primary product goes to its group
      folder, followed by its header when a header of that name exists. */
  function FlightMoves(entries: seq<Entry>, listed: seq<string>): (r: seq<FlightMove>)
    ensures forall k | 0 <= k < |entries| && IsPrimary(entries[k]) ::
      FlightMove(entries[k].name, FlightFolder(entries[k].name)) in r
    ensures forall k | 0 <= k < |entries| && IsPrimary(entries[k]) && HeaderOf(entries[k].name) in listed ::
      FlightMove(HeaderOf(entries[k].name), FlightFolder(entries[k].name)) in r
    ensures forall m | m in r :: PlannedMove(entries, listed, m)
    decreases |entries|
  {
    if entries == [] then []
    else
      var rest := FlightMoves(entries[1..], listed);
      var r := if IsPrimary(entries[0])
        then OwnMoves(entries[0].name, FlightFolder(entries[0].name), HeaderOf(entries[0].name) in listed) + rest
        else rest;
      FlightMovesCover(entries, listed, rest, r);
      FlightMovesPlanned(entries, listed, rest, r);
      r
  }

  /** The step of `FlightMoves` for its first two clauses: every primary
      product, and every listed header of one, gets its move. */
  lemma FlightMovesCover(entries: seq<Entry>, listed: seq<string>, rest: seq<FlightMove>, r: seq<FlightMove>)
    requires entries != []
    requires forall k | 0 <= k < |entries[1..]| && IsPrimary(entries[1..][k]) ::
      FlightMove(entries[1..][k].name, FlightFolder(entries[1..][k].name)) in rest
    requires forall k | 0 <= k < |entries[1..]| && IsPrimary(entries[1..][k]) && HeaderOf(entries[1..][k].name) in listed ::
      FlightMove(HeaderOf(entries[1..][k].name), FlightFolder(entries[1..][k].name)) in rest
    requires r == if IsPrimary(entries[0])
      then OwnMoves(entries[0].name, FlightFolder(entries[0].name), HeaderOf(entries[0].name) in listed) + rest
      else rest
    ensures forall k | 0 <= k < |entries| && IsPrimary(entries[k]) ::
      FlightMove(entries[k].name, FlightFolder(entries[k].name)) in r
    ensures forall k | 0 <= k < |entries| && IsPrimary(entries[k]) && HeaderOf(entries[k].name) in listed ::
      FlightMove(HeaderOf(entries[k].name), FlightFolder(entries[k].name)) in r
  {
    forall k | 1 <= k < |entries| ensures entries[k] == entries[1..][k - 1] { }
  }

  /** The step of `FlightMoves` for its last clause: nothing but planned
      moves. */
  lemma FlightMovesPlanned(entries: seq<Entry>, listed: seq<string>, rest: seq<FlightMove>, r: seq<FlightMove>)
    requires entries != []
    requires forall m | m in rest :: PlannedMove(entries[1..], listed, m)
    requires r == if IsPrimary(entries[0])
      then OwnMoves(entries[0].name, FlightFolder(entries[0].name), HeaderOf(entries[0].name) in listed) + rest
      else rest
    ensures forall m | m in r :: PlannedMove(entries, listed, m)
  {
    forall m | m in r ensures PlannedMove(entries, listed, m) {
      if m in rest {
        PlannedMoveShift(entries, listed, m);
      } else {
        OwnMovePlanned(entries, listed, m);
      }
    }
  }

  /** A planned move is of a listed primary product into its group folder,
      or of that product's listed header into the same folder. */
  predicate PlannedMove(entries: seq<Entry>, listed: seq<string>, m: FlightMove) {
    exists k | 0 <= k < |entries| :: IsPrimary(entries[k]) &&
      ((m.name == entries[k].name && m.folder == FlightFolder(entries[k].name)) ||
       (m.name == HeaderOf(entries[k].name) && m.name in listed && m.folder == FlightFolder(entries[k].name)))
  }

  lemma OwnMovePlanned(entries: seq<Entry>, listed: seq<string>, m: FlightMove)
    requires |entries| > 0 && IsPrimary(entries[0])
    requires m in OwnMoves(entries[0].name, FlightFolder(entries[0].name), HeaderOf(entries[0].name) in listed)
    ensures PlannedMove(entries, listed, m)
  {
    assert IsPrimary(entries[0]);
  }

  lemma PlannedMoveShift(entries: seq<Entry>, listed: seq<string>, m: FlightMove)
    requires |entries| > 0 && PlannedMove(entries[1..], listed, m)
    ensures PlannedMove(entries, listed, m)
  {
    var k :| 0 <= k < |entries[1..]| && IsPrimary(entries[1..][k]) &&
      ((m.name == entries[1..][k].name && m.folder == FlightFolder(entries[1..][k].name)) ||
       (m.name == HeaderOf(entries[1..][k].name) && m.name in listed && m.folder == FlightFolder(entries[1..][k].name)));
    assert entries[k + 1] == entries[1..][k];
  }
}
