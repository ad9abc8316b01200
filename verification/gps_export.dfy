/** Choosing the GNSS receiver files of one flight
    (`process_flight_data` in export_gps_files_per_flight.py): the `.T04`
    files of the central folder are sorted by name, each carries an HHMM
    time in its name, and the contiguous run from the last file starting at
    or before the flight's start to the first file starting at or after its
    end is copied next to the flight's `imu_gps.txt`. */
module GpsExport {
  import opened Common
  import opened Sorting

  // ---- the imu_gps.txt header ----

  /** Which column layout the first line of `imu_gps.txt` announces. */
  datatype HeaderFormat = NewFormat | OldFormat | UnknownFormat

  /** "Timestamp" together with "Status" means the new layout; otherwise
      "Gps_Raw_Date&Time" means the old one; anything else is skipped. */
  function DetectHeader(firstLine: string): (r: HeaderFormat)
    ensures r.NewFormat? <==> Contains(firstLine, "Timestamp") && Contains(firstLine, "Status")
    ensures r.OldFormat? <==> !(Contains(firstLine, "Timestamp") && Contains(firstLine, "Status"))
                              && Contains(firstLine, "Gps_Raw_Date&Time")
  {
    ContainsByScan(firstLine, "Timestamp");
    ContainsByScan(firstLine, "Status");
    ContainsByScan(firstLine, "Gps_Raw_Date&Time");
    if FirstOccurrence(firstLine, "Timestamp", 0).Some? && FirstOccurrence(firstLine, "Status", 0).Some? then NewFormat
    else if FirstOccurrence(firstLine, "Gps_Raw_Date&Time", 0).Some? then OldFormat
    else UnknownFormat
  }

  /** The column the flight's times are read from. */
  function TimestampColumn(f: HeaderFormat): (c: string)
    requires !f.UnknownFormat?
  {
    if f.NewFormat? then "Gps_UTC_Date&Time" else "Gps_Raw_Date&Time"
  }

  /** `int(f"{hour:02d}{minute:02d}")`. */
  function HourMin(hour: nat, minute: nat): (hm: nat)
    requires hour < 24 && minute < 60
    ensures hm < 2400 && hm / 100 == hour && hm % 100 == minute
  {
    hour * 100 + minute
  }

  /** HHMM values order as the times of day they stand for. */
  lemma HourMinOrdered(h1: nat, m1: nat, h2: nat, m2: nat)
    requires h1 < 24 && m1 < 60 && h2 < 24 && m2 < 60
    ensures HourMin(h1, m1) <= HourMin(h2, m2) <==> h1 * 60 + m1 <= h2 * 60 + m2
  {
  }

  // ---- the .T04 files ----

  predicate IsT04(f: string) {
    EndsWith(f, ".T04")
  }

  /** Two sequences holding the same multiset hold the same elements. */
  lemma SameMembers<T>(a: seq<T>, b: seq<T>)
    requires multiset(a) == multiset(b)
    ensures forall i | 0 <= i < |a| :: a[i] in b
  {
    forall i | 0 <= i < |a| ensures a[i] in b {
      assert a[i] in multiset(a);
    }
  }

  /** `sorted(f for f in listing if f.endswith(".T04"))`. */
  function T04Files(listing: seq<string>): (r: seq<string>)
    ensures forall i | 0 <= i < |r| :: IsT04(r[i]) && r[i] in listing
    ensures forall i | 0 <= i < |listing| && IsT04(listing[i]) :: listing[i] in r
    ensures forall i, j | 0 <= i < j < |r| :: LexLe(r[i], r[j])
    ensures multiset(r) == multiset(Filter(listing, IsT04))
    ensures forall i | 0 <= i < |listing| ::
      multiset(r)[listing[i]] == if IsT04(listing[i]) then multiset(listing)[listing[i]] else 0
  {
    var f := Filter(listing, IsT04);
    var r := SortStrings(f);
    SameMembers(r, f);
    SameMembers(f, r);
    r
  }

  /** Python's `f[-8:-4]` on a name of at least four characters. */
  function TimeField(f: string): string
    requires |f| >= 4
  {
    f[(if |f| >= 8 then |f| - 8 else 0)..|f| - 4]
  }

  /** The HHMM time of a file name: only when the field is all digits. */
  function T04Time(f: string): (t: Option<nat>)
    ensures t.Some? <==> |f| >= 4 && AllDigits(TimeField(f))
  {
    if |f| >= 4 && AllDigits(TimeField(f)) then Some(DecimalValue(TimeField(f))) else None
  }

  /** The parsed time of every file, in list order. */
  function Times(files: seq<string>): (ts: seq<Option<nat>>)
    ensures |ts| == |files| && forall q | 0 <= q < |files| :: ts[q] == T04Time(files[q])
  {
    seq(|files|, q requires 0 <= q < |files| => T04Time(files[q]))
  }

  /** Position `q` has a time at or before `hm`. */
  predicate AtOrBefore(ts: seq<Option<nat>>, q: nat, hm: nat)
    requires q < |ts|
  {
    ts[q].Some? && ts[q].value <= hm
  }

  /** Position `q` has a time at or after `hm`. */
  predicate AtOrAfter(ts: seq<Option<nat>>, q: nat, hm: nat)
    requires q < |ts|
  {
    ts[q].Some? && ts[q].value >= hm
  }

  /** `max(candidates, key=time)` over the times at or before `hm`: the
      greatest such time, the first position holding it when several do. */
  function LastAtOrBefore(ts: seq<Option<nat>>, hm: nat): (r: Option<nat>)
    ensures r.Some? ==> r.value < |ts| && AtOrBefore(ts, r.value, hm)
    ensures r.Some? ==> forall q | 0 <= q < |ts| && AtOrBefore(ts, q, hm) :: ts[q].value <= ts[r.value].value
    ensures r.Some? ==> forall q | 0 <= q < r.value && AtOrBefore(ts, q, hm) :: ts[q].value < ts[r.value].value
    ensures r.None? <==> forall q | 0 <= q < |ts| :: !AtOrBefore(ts, q, hm)
  {
    if ts == [] then None
    else
      var n := |ts| - 1;
      var prev := LastAtOrBefore(ts[..n], hm);
      assert forall q | 0 <= q < n :: ts[..n][q] == ts[q] && (AtOrBefore(ts[..n], q, hm) <==> AtOrBefore(ts, q, hm));
      if !AtOrBefore(ts, n, hm) then prev
      else if prev.None? || ts[prev.value].value < ts[n].value then Some(n)
      else prev
  }

  /** `min(candidates, key=time)` over the times at or after `hm`: the least
      such time, the first position holding it when several do. */
  function FirstAtOrAfter(ts: seq<Option<nat>>, hm: nat): (r: Option<nat>)
    ensures r.Some? ==> r.value < |ts| && AtOrAfter(ts, r.value, hm)
    ensures r.Some? ==> forall q | 0 <= q < |ts| && AtOrAfter(ts, q, hm) :: ts[q].value >= ts[r.value].value
    ensures r.Some? ==> forall q | 0 <= q < r.value && AtOrAfter(ts, q, hm) :: ts[q].value > ts[r.value].value
    ensures r.None? <==> forall q | 0 <= q < |ts| :: !AtOrAfter(ts, q, hm)
  {
    if ts == [] then None
    else
      var n := |ts| - 1;
      var prev := FirstAtOrAfter(ts[..n], hm);
      assert forall q | 0 <= q < n :: ts[..n][q] == ts[q] && (AtOrAfter(ts[..n], q, hm) <==> AtOrAfter(ts, q, hm));
      if !AtOrAfter(ts, n, hm) then prev
      else if prev.None? || ts[prev.value].value > ts[n].value then Some(n)
      else prev
  }

  /** The start file's position. */
  function StartIndex(files: seq<string>, hm: nat): Option<nat> {
    LastAtOrBefore(Times(files), hm)
  }

  /** The end file's position. */
  function EndIndex(files: seq<string>, hm: nat): Option<nat> {
    FirstAtOrAfter(Times(files), hm)
  }

  /** What happens for one `imu_gps.txt`. */
  datatype Selection = NoMatchingFiles | StartAfterEnd | CopyRange(first: nat, last: nat)

  /** The selection for a flight running from `startHM` to `endHM`. The
      files are the sorted `.T04` list, whose names are distinct, so
      `t04_files.index` gives back the chosen position. */
  function SelectFiles(files: seq<string>, startHM: nat, endHM: nat): (r: Selection)
    ensures r.NoMatchingFiles? <==> StartIndex(files, startHM).None? || EndIndex(files, endHM).None?
    ensures r.StartAfterEnd? <==> StartIndex(files, startHM).Some? && EndIndex(files, endHM).Some?
                                   && StartIndex(files, startHM).value > EndIndex(files, endHM).value
    ensures r.CopyRange? ==> r.first == StartIndex(files, startHM).value && r.last == EndIndex(files, endHM).value
    ensures r.CopyRange? ==> r.first <= r.last < |files|
  {
    match (StartIndex(files, startHM), EndIndex(files, endHM))
    case (Some(s), Some(e)) => if s > e then StartAfterEnd else CopyRange(s, e)
    case _ => NoMatchingFiles
  }

  /** `t04_files[start_index:end_index + 1]`: the inclusive, contiguous run;
      files without a time inside it are copied too. */
  function FilesToCopy(files: seq<string>, sel: Selection): (r: seq<string>)
    requires sel.CopyRange? ==> sel.first <= sel.last < |files|
    ensures sel.CopyRange? ==> |r| == sel.last - sel.first + 1 && forall k | 0 <= k < |r| :: r[k] == files[sel.first + k]
    ensures !sel.CopyRange? ==> r == []
  {
    if sel.CopyRange? then files[sel.first..sel.last + 1] else []
  }

  /** Times strictly increase along the list among the positions that have
      one: the receiver writes one file per start minute and names sort by
      time. */
  predicate Ascending(ts: seq<Option<nat>>) {
    forall p, q | 0 <= p < q < |ts| && ts[p].Some? && ts[q].Some? :: ts[p].value < ts[q].value
  }

  /** With ascending times, a position whose time lies within the flight
      lies between the chosen start and end positions. */
  lemma WithinEndpoints(ts: seq<Option<nat>>, startHM: nat, endHM: nat, q: nat)
    requires Ascending(ts)
    requires q < |ts| && AtOrAfter(ts, q, startHM) && AtOrBefore(ts, q, endHM)
    requires LastAtOrBefore(ts, startHM).Some? && FirstAtOrAfter(ts, endHM).Some?
    ensures LastAtOrBefore(ts, startHM).value <= q <= FirstAtOrAfter(ts, endHM).value
  {
    var s := LastAtOrBefore(ts, startHM).value;
    var e := FirstAtOrAfter(ts, endHM).value;
    assert ts[s].value <= startHM <= ts[q].value;
    assert ts[q].value <= endHM <= ts[e].value;
  }

  /** With ascending times, a flight that does not cross midnight never
      finds its start file after its end file. */
  lemma NoReversalWhenAscending(files: seq<string>, startHM: nat, endHM: nat)
    requires Ascending(Times(files)) && startHM <= endHM
    ensures !SelectFiles(files, startHM, endHM).StartAfterEnd?
  {
  }

  /** With ascending times, every file whose time falls within the flight is
      copied. */
  lemma CopiesCoverTheFlight(files: seq<string>, startHM: nat, endHM: nat, q: nat)
    requires Ascending(Times(files))
    requires q < |files| && AtOrAfter(Times(files), q, startHM) && AtOrBefore(Times(files), q, endHM)
    requires SelectFiles(files, startHM, endHM).CopyRange?
    ensures files[q] in FilesToCopy(files, SelectFiles(files, startHM, endHM))
  {
    var ts := Times(files);
    var sel := SelectFiles(files, startHM, endHM);
    WithinEndpoints(ts, startHM, endHM, q);
    assert sel.first <= q <= sel.last;
    var r := FilesToCopy(files, sel);
    assert r[q - sel.first] == files[q];
  }

  // ---- copying without overwriting ----

  /** The destination folder after the copy loop, and the position of the
      copy that raised, if one did. */
  datatype Copied = Copied(dest: map<string, string>, stoppedAt: Option<nat>)

  /** How many names the loop got through: all, or those before the copy
      that raised. */
  function CopiedUpTo(r: Copied, total: nat): nat {
    if r.stoppedAt.Some? then r.stoppedAt.value else total
  }

  /** The copy loop over a destination folder given as name -> contents: a
      name already there is left alone, and a `copy2` that raises (a name in
      `fails`) ends the loop, the rest of the flight's files uncopied, since
      the exception is caught only around the whole flight. */
  function CopyAll(dest: map<string, string>, src: map<string, string>, names: seq<string>, fails: set<string>): (r: Copied)
    requires forall k | 0 <= k < |names| :: names[k] in src
    ensures r.stoppedAt.Some? ==> r.stoppedAt.value < |names|
    ensures var m := CopiedUpTo(r, |names|);
      && (forall k | 0 <= k < m :: names[k] in dest || names[k] !in fails)
      && (r.stoppedAt.Some? ==> names[m] !in dest && names[m] in fails)
      && r.dest.Keys == dest.Keys + set k | 0 <= k < m :: names[k]
    ensures forall f | f in dest :: r.dest[f] == dest[f]
    ensures forall f | f in r.dest && f !in dest :: r.dest[f] == src[f]
    decreases |names|
  {
    if names == [] then Copied(dest, None)
    else
      var f := names[0];
      if f !in dest && f in fails then Copied(dest, Some(0))
      else
        var next := if f in dest then dest else dest[f := src[f]];
        var rest := CopyAll(next, src, names[1..], fails);
        var r := Copied(rest.dest, if rest.stoppedAt.Some? then Some(rest.stoppedAt.value + 1) else None);
        CopyAllStep(dest, names, fails, next, rest, r);
        r
  }

  /** Prepending the first name to the loop over the others. */
  lemma CopyAllStep(dest: map<string, string>, names: seq<string>, fails: set<string>,
                    next: map<string, string>, rest: Copied, r: Copied)
    requires names != [] && (names[0] in dest || names[0] !in fails)
    requires next.Keys == dest.Keys + {names[0]}
    requires rest.stoppedAt.Some? ==> rest.stoppedAt.value < |names| - 1
    requires var m := CopiedUpTo(rest, |names| - 1);
      && (forall k | 0 <= k < m :: names[1..][k] in next || names[1..][k] !in fails)
      && (rest.stoppedAt.Some? ==> names[1..][m] !in next && names[1..][m] in fails)
      && rest.dest.Keys == next.Keys + set k | 0 <= k < m :: names[1..][k]
    requires r == Copied(rest.dest, if rest.stoppedAt.Some? then Some(rest.stoppedAt.value + 1) else None)
    ensures var m := CopiedUpTo(r, |names|);
      && (forall k | 0 <= k < m :: names[k] in dest || names[k] !in fails)
      && (r.stoppedAt.Some? ==> names[m] !in dest && names[m] in fails)
      && r.dest.Keys == dest.Keys + set k | 0 <= k < m :: names[k]
  {
    var m := CopiedUpTo(r, |names|);
    assert m == CopiedUpTo(rest, |names| - 1) + 1;
    assert forall k | 1 <= k < |names| :: names[k] == names[1..][k - 1];
    assert (set k | 0 <= k < m :: names[k]) == {names[0]} + set k | 0 <= k < m - 1 :: names[1..][k];
  }

  /** Without a failing copy every selected file ends in the destination;
      a failing copy stops the loop exactly at the first selected file that
      is missing and cannot be copied. */
  lemma CopyAllCompletes(dest: map<string, string>, src: map<string, string>, names: seq<string>, fails: set<string>)
    requires forall k | 0 <= k < |names| :: names[k] in src
    ensures var r := CopyAll(dest, src, names, fails);
      r.stoppedAt.None? <==> forall k | 0 <= k < |names| :: names[k] in dest || names[k] !in fails
    ensures var r := CopyAll(dest, src, names, fails);
      r.stoppedAt.None? ==> forall k | 0 <= k < |names| :: names[k] in r.dest
  {
    var r := CopyAll(dest, src, names, fails);
    if r.stoppedAt.None? {
      forall k | 0 <= k < |names| ensures names[k] in r.dest {
        assert names[k] in set k | 0 <= k < |names| :: names[k];
      }
    }
  }
}
