/** Flight identifiers read from folder and file names (update_excel_table.py):
    the take-off position and flight numbers of a VNIR folder, the date
    folder code of its path, and the (take-off, flight) keys of the 2D KML
    files. */
module FlightNames {
  import opened Common

  /** `re.match(r"TECK_T(\d+)", name)`: the maximal digit run after the
      prefix, or "" when the prefix is not followed by a digit. */
  function TakeoffPosition(name: string): (r: string)
    ensures r != [] <==> StartsWith(name, "TECK_T") && |name| > 6 && IsDigit(name[6])
    ensures r != [] ==> AllDigits(r) && StartsWith(name, "TECK_T" + r)
    ensures r != [] ==> |name| == 6 + |r| || !IsDigit(name[6 + |r|])
  {
    if StartsWith(name, "TECK_T") && |name| > 6 && IsDigit(name[6]) then
      var e := DigitRunEnd(name, 6);
      assert name[..e] == "TECK_T" + name[6..e];
      name[6..e]
    else ""
  }

  /** A flight number starts at `i`: `_F` followed by a digit. */
  predicate FlightAt(s: string, i: nat) {
    i + 3 <= |s| && s[i] == '_' && s[i + 1] == 'F' && IsDigit(s[i + 2])
  }

  /** The number whose `_F` is at `i`: the maximal digit run after it. */
  function FlightDigits(s: string, i: nat): (r: string)
    requires FlightAt(s, i)
    ensures AllDigits(r)
  {
    s[i + 2..DigitRunEnd(s, i + 2)]
  }

  /** `re.findall(r"_F(\d+)", s[i:])`: scan left to right, resuming after
      each match. */
  function FindFlights(s: string, i: nat): (r: seq<string>)
    requires i <= |s|
    decreases |s| - i
  {
    if i == |s| then []
    else if FlightAt(s, i) then [FlightDigits(s, i)] + FindFlights(s, DigitRunEnd(s, i + 2))
    else FindFlights(s, i + 1)
  }

  /** Every position at or after `i` where a flight number starts, in
      order: the reference the scan is checked against. */
  function FlightStarts(s: string, i: nat): (r: seq<nat>)
    requires i <= |s|
    ensures forall k | 0 <= k < |r| :: i <= r[k] < |s| && FlightAt(s, r[k])
    ensures forall k, l | 0 <= k < l < |r| :: r[k] < r[l]
    ensures forall p | i <= p < |s| && FlightAt(s, p) :: p in r
    decreases |s| - i
  {
    if i == |s| then []
    else if FlightAt(s, i) then [i] + FlightStarts(s, i + 1)
    else FlightStarts(s, i + 1)
  }

  /** Inside a flight number there is no other `_F`, so skipping to its end
      misses nothing. */
  lemma {:induction false} NoStartInsideRun(s: string, i: nat, j: nat)
    requires FlightAt(s, i)
    requires i < j <= DigitRunEnd(s, i + 2)
    ensures FlightStarts(s, j) == FlightStarts(s, DigitRunEnd(s, i + 2))
    decreases DigitRunEnd(s, i + 2) - j
  {
    var e := DigitRunEnd(s, i + 2);
    if j < e {
      assert !FlightAt(s, j) by {
        assert s[j] == 'F' || IsDigit(s[j]);
      }
      NoStartInsideRun(s, i, j + 1);
    }
  }

  /** `found` holds the number at each position of `starts`, in order. */
  predicate NumbersAt(s: string, found: seq<string>, starts: seq<nat>) {
    |found| == |starts|
    && forall k | 0 <= k < |starts| :: FlightAt(s, starts[k]) && found[k] == FlightDigits(s, starts[k])
  }

  lemma NumbersAtCons(s: string, found: seq<string>, starts: seq<nat>, p: nat)
    requires NumbersAt(s, found, starts) && FlightAt(s, p)
    ensures NumbersAt(s, [FlightDigits(s, p)] + found, [p] + starts)
  {
    var f, t := [FlightDigits(s, p)] + found, [p] + starts;
    assert forall k | 1 <= k < |t| :: f[k] == found[k - 1] && t[k] == starts[k - 1];
  }

  /** The scan finds exactly one number per `_F<digit>` in the name, in
      order of position. */
  lemma {:induction false} FindFlightsIsComplete(s: string, i: nat)
    requires i <= |s|
    ensures NumbersAt(s, FindFlights(s, i), FlightStarts(s, i))
    decreases |s| - i
  {
    if i < |s| {
      if FlightAt(s, i) {
        var e := DigitRunEnd(s, i + 2);
        FindFlightsIsComplete(s, e);
        NoStartInsideRun(s, i, i + 1);
        assert FindFlights(s, i) == [FlightDigits(s, i)] + FindFlights(s, e);
        assert FlightStarts(s, i) == [i] + FlightStarts(s, e);
        NumbersAtCons(s, FindFlights(s, e), FlightStarts(s, e), i);
      } else {
        FindFlightsIsComplete(s, i + 1);
        assert FindFlights(s, i) == FindFlights(s, i + 1);
        assert FlightStarts(s, i) == FlightStarts(s, i + 1);
      }
    }
  }

  /** `extract_flight_numbers`: the numbers found, or `[""]` when there is
      none, so every folder yields at least one row. */
  function FlightNumbers(name: string): (r: seq<string>)
    ensures |r| >= 1
    ensures r == [""] <==> FlightStarts(name, 0) == []
    ensures r != [""] ==> |r| == |FlightStarts(name, 0)|
    ensures r != [""] ==> forall k | 0 <= k < |r| :: r[k] == FlightDigits(name, FlightStarts(name, 0)[k])
  {
    FindFlightsIsComplete(name, 0);
    var found := FindFlights(name, 0);
    if found == [] then [""]
    else
      assert found[0] == FlightDigits(name, FlightStarts(name, 0)[0]);
      assert found[0] != "";
      found
  }

  /** Exactly four digits: `re.fullmatch(r"\d{4}", tail)`. */
  predicate IsDateCode(c: string) {
    |c| == 4 && AllDigits(c)
  }

  /** The deepest date code among the first `n` components. */
  function DeepestCode(components: seq<string>, n: nat): (r: Option<nat>)
    requires n <= |components|
    ensures r.Some? ==> r.value < n && IsDateCode(components[r.value])
    ensures r.Some? ==> forall j | r.value < j < n :: !IsDateCode(components[j])
    ensures r.None? <==> forall j | 0 <= j < n :: !IsDateCode(components[j])
  {
    if n == 0 then None
    else if IsDateCode(components[n - 1]) then Some(n - 1)
    else DeepestCode(components, n - 1)
  }

  /** `find_date_folder_code` on the components of an absolute path, root
      first: splitting off the last component until the path is exhausted
      finds the deepest component of exactly four digits. */
  function DateFolderCode(components: seq<string>): (r: Option<string>)
    ensures r.Some? ==> IsDateCode(r.value)
    ensures r.Some? ==> DeepestCode(components, |components|).Some? && r.value == components[DeepestCode(components, |components|).value]
    ensures r.None? <==> forall k | 0 <= k < |components| :: !IsDateCode(components[k])
  {
    match DeepestCode(components, |components|)
    case None => None
    case Some(k) => Some(components[k])
  }

  // ---- 2D KML file names ----

  /** A character of the flight list `[0-9n]`, matched case-insensitively. */
  predicate IsFlightListChar(c: char) {
    IsDigit(c) || c == 'n' || c == 'N'
  }

  function FlightListEnd(s: string, i: nat): (e: nat)
    requires i <= |s|
    ensures i <= e <= |s|
    ensures forall j | i <= j < e :: IsFlightListChar(s[j])
    ensures e == |s| || !IsFlightListChar(s[e])
    decreases |s| - i
  {
    if i < |s| && IsFlightListChar(s[i]) then FlightListEnd(s, i + 1) else i
  }

  /** The groups of a KML name matched by
      `tof_(\d+)_flt_([0-9n]+)_.*\.kml$` under `re.IGNORECASE`, once the name
      is known to end in ".kml" in any case. */
  datatype KmlName = KmlName(tof: string, flights: string)

  /** `f` is `tof_<t>_flt_<fl>_` followed by at least four characters (the
      extension), the two literal parts in any case: the shape the pattern
      accepts, with `t` and `fl` its two groups. */
  predicate KmlShaped(f: string, t: string, fl: string) {
    && AllDigits(t) && fl != [] && (forall j | 0 <= j < |fl| :: IsFlightListChar(fl[j]))
    && 14 + |t| + |fl| <= |f|
    && Lower(f[..4]) == "tof_" && f[4..4 + |t|] == t
    && Lower(f[4 + |t|..9 + |t|]) == "_flt_" && f[9 + |t|..9 + |t| + |fl|] == fl
    && f[9 + |t| + |fl|] == '_'
  }

  /** A match gives the two groups where the pattern puts them; together
      with `MatchKmlComplete`, no match means the name has no such shape. */
  function MatchKml(f: string): (r: Option<KmlName>)
    ensures r.Some? ==> KmlShaped(f, r.value.tof, r.value.flights)
  {
    if |f| < 5 || Lower(f[..4]) != "tof_" || !IsDigit(f[4]) then None
    else
      var e1 := DigitRunEnd(f, 4);
      if e1 + 5 > |f| || Lower(f[e1..e1 + 5]) != "_flt_" || e1 + 5 == |f| || !IsFlightListChar(f[e1 + 5]) then None
      else
        var e2 := FlightListEnd(f, e1 + 5);
        // `_.*\.kml$`: an underscore, then at least the four characters of
        // the extension
        if e2 + 5 > |f| || f[e2] != '_' then None
        else Some(KmlName(f[4..e1], f[e1 + 5..e2]))
  }

  /** Every name of the pattern's shape matches, with its own groups: the
      take-off run and the flight list are maximal, since each is followed
      by an underscore that neither class contains. */
  lemma MatchKmlComplete(f: string, t: string, fl: string)
    requires KmlShaped(f, t, fl)
    ensures MatchKml(f) == Some(KmlName(t, fl))
  {
    var e1 := 4 + |t|;
    assert f[4] == t[0];
    forall j | 4 <= j < e1 ensures IsDigit(f[j]) {
      assert f[j] == f[4..e1][j - 4];
    }
    assert f[e1] == Lower(f[e1..e1 + 5])[0] == '_';
    DigitRunEndAt(f, 4, e1);
    var e2 := e1 + 5 + |fl|;
    assert f[e1 + 5] == fl[0];
    forall j | e1 + 5 <= j < e2 ensures IsFlightListChar(f[j]) {
      assert f[j] == f[e1 + 5..e2][j - (e1 + 5)];
    }
    FlightListEndAt(f, e1 + 5, e2);
  }

  /** The digit run from `i` ends at the first non-digit. */
  lemma {:induction false} DigitRunEndAt(s: string, i: nat, e: nat)
    requires i <= e < |s| && !IsDigit(s[e])
    requires forall j | i <= j < e :: IsDigit(s[j])
    ensures DigitRunEnd(s, i) == e
    decreases e - i
  {
    if i < e {
      DigitRunEndAt(s, i + 1, e);
    }
  }

  /** The flight list from `i` ends at the first character outside its class. */
  lemma {:induction false} FlightListEndAt(s: string, i: nat, e: nat)
    requires i <= e < |s| && !IsFlightListChar(s[e])
    requires forall j | i <= j < e :: IsFlightListChar(s[j])
    ensures FlightListEnd(s, i) == e
    decreases e - i
  {
    if i < e {
      FlightListEndAt(s, i + 1, e);
    }
  }

  /** `f.lower().endswith('.kml')`. */
  predicate IsKmlFile(f: string) {
    EndsWith(Lower(f), ".kml")
  }

  /** The keys one KML file is indexed under, as written: the flight list
      is split on a lower-case `n` only, although the pattern also accepted
      `N`. */
  function KmlKeysAsWritten(f: string): (r: seq<(string, string)>)
    ensures r != [] <==> IsKmlFile(f) && MatchKml(f).Some?
  {
    if !IsKmlFile(f) then []
    else match MatchKml(f)
      case None => []
      case Some(m) =>
        var fls := Split(m.flights, 'n');
        seq(|fls|, k requires 0 <= k < |fls| => (m.tof, fls[k]))
  }

  /** The evidently intended keys: the flight list split on `n` in either
      case, so every key's flight is made of digits only, as the numbers
      `FlightNumbers` looks up are. */
  function KmlKeys(f: string): (r: seq<(string, string)>)
    ensures r != [] <==> IsKmlFile(f) && MatchKml(f).Some?
    ensures forall k | 0 <= k < |r| :: AllDigits(r[k].0) && DigitsOnly(r[k].1)
  {
    if !IsKmlFile(f) then []
    else match MatchKml(f)
      case None => []
      case Some(m) =>
        var fls := Split(Lower(m.flights), 'n');
        assert forall k, j | 0 <= k < |fls| && 0 <= j < |fls[k]| :: IsDigit(fls[k][j]) by {
          forall k, j | 0 <= k < |fls| && 0 <= j < |fls[k]|
            ensures IsDigit(fls[k][j])
          {
            SplitPiecesFromAlphabet(Lower(m.flights), 'n', k, j);
          }
        }
        seq(|fls|, k requires 0 <= k < |fls| => (m.tof, fls[k]))
  }

  /** Every character of a piece of `Split(s, sep)` is a character of `s`. */
  lemma {:induction false} SplitPiecesFromAlphabet(s: string, sep: char, k: nat, j: nat)
    requires forall i | 0 <= i < |s| :: IsDigit(s[i]) || s[i] == sep
    requires k < |Split(s, sep)| && j < |Split(s, sep)[k]|
    ensures IsDigit(Split(s, sep)[k][j])
    decreases |s|
  {
    match FirstIndexOf(s, sep)
    case None =>
    case Some(i) =>
      if k > 0 {
        SplitPiecesFromAlphabet(s[i + 1..], sep, k - 1, j);
      }
  }

  /** The name of the counterexample below matches, with flight list "1N2". */
  lemma MatchUpperCaseN()
    ensures IsKmlFile("tof_6_flt_1N2_a.kml")
    ensures MatchKml("tof_6_flt_1N2_a.kml") == Some(KmlName("6", "1N2"))
  {
    var f := "tof_6_flt_1N2_a.kml";
    assert f[..4] == "tof_" && Lower(f[..4]) == "tof_";
    assert DigitRunEnd(f, 4) == 5 by {
      assert DigitRunEnd(f, 5) == 5;
    }
    assert f[5..10] == "_flt_" && Lower(f[5..10]) == "_flt_";
    assert FlightListEnd(f, 10) == 13 by {
      assert FlightListEnd(f, 13) == 13;
      assert FlightListEnd(f, 12) == 13;
      assert FlightListEnd(f, 11) == 13;
    }
    assert f[13] == '_' && f[4..5] == "6" && f[10..13] == "1N2";
    assert Lower(f)[|f| - 4..] == ".kml";
  }

  /** Splitting "1N2" on a lower-case `n` keeps it whole; splitting its
      lower-cased form cuts it in two. */
  lemma SplitUpperCaseN()
    ensures Split("1N2", 'n') == ["1N2"]
    ensures Split(Lower("1N2"), 'n') == ["1", "2"]
  {
    assert FirstIndexOf("1N2", 'n') == None;
    assert Lower("1N2") == "1n2";
    assert FirstIndexOf("1n2", 'n') == Some(1);
    assert "1n2"[..1] == "1" && "1n2"[2..] == "2" && FirstIndexOf("2", 'n') == None;
    assert Split("2", 'n') == ["2"];
  }

  /** The counterexample: a KML named with an upper-case `N` between its
      flights is indexed under one key whose flight contains a letter, which
      no flight number can equal, so neither flight finds it. */
  lemma UpperCaseNSeparatorIsLost()
    ensures KmlKeysAsWritten("tof_6_flt_1N2_a.kml") == [("6", "1N2")]
    ensures KmlKeys("tof_6_flt_1N2_a.kml") == [("6", "1"), ("6", "2")]
  {
    MatchUpperCaseN();
    SplitUpperCaseN();
  }

  /** `for fl in flights: idx[(tof, fl)] = full`. */
  function AddKeys(idx: map<(string, string), string>, keys: seq<(string, string)>, path: string): (r: map<(string, string), string>)
    ensures r.Keys == idx.Keys + set key | key in keys
    ensures forall key | key in keys :: r[key] == path
    ensures forall key | key in idx && key !in keys :: r[key] == idx[key]
    decreases |keys|
  {
    if keys == [] then idx
    else
      var r := AddKeys(idx[keys[0] := path], keys[1..], path);
      assert forall k | 1 <= k < |keys| :: keys[k] == keys[1..][k - 1];
      assert forall key | key in keys[1..] :: key in keys;
      r
  }

  /** The loop of `build_kml_index` over files already turned into their
      keys and full paths, in walk order. */
  function IndexEntries(entries: seq<(seq<(string, string)>, string)>): (idx: map<(string, string), string>)
    ensures forall i, key | 0 <= i < |entries| && key in entries[i].0 :: key in idx
    decreases |entries|
  {
    if entries == [] then map[]
    else
      var n := |entries| - 1;
      var prev := IndexEntries(entries[..n]);
      assert forall i | 0 <= i < n :: entries[..n][i] == entries[i];
      AddKeys(prev, entries[n].0, entries[n].1)
  }

  lemma {:induction false} IndexLastWins(entries: seq<(seq<(string, string)>, string)>, i: nat, key: (string, string))
    requires i < |entries| && key in entries[i].0
    requires forall j | i < j < |entries| :: key !in entries[j].0
    ensures key in IndexEntries(entries) && IndexEntries(entries)[key] == entries[i].1
    decreases |entries|
  {
    var n := |entries| - 1;
    if i < n {
      assert entries[..n][i] == entries[i];
      assert forall j | i < j < n :: entries[..n][j] == entries[j];
      IndexLastWins(entries[..n], i, key);
    }
  }

  lemma {:induction false} IndexOnlyNamedKeys(entries: seq<(seq<(string, string)>, string)>, key: (string, string)) returns (i: nat)
    requires key in IndexEntries(entries)
    ensures i < |entries| && key in entries[i].0 && IndexEntries(entries)[key] == entries[i].1
    decreases |entries|
  {
    var n := |entries| - 1;
    if key in entries[n].0 {
      i := n;
    } else {
      var i' := IndexOnlyNamedKeys(entries[..n], key);
      assert entries[..n][i'] == entries[i'];
      i := i';
    }
  }

  /** Which split of the flight list builds the keys: the source's, on a
      lower-case `n` only, or the intended one, on `n` in either case. */
  datatype KeyRule = AsWritten | Intended

  function KeysBy(rule: KeyRule, f: string): seq<(string, string)> {
    match rule
    case AsWritten => KmlKeysAsWritten(f)
    case Intended => KmlKeys(f)
  }

  /** `build_kml_index` over the files in walk order, each given as its
      name and full path, with the keys built by `rule`. */
  function KmlIndex(rule: KeyRule, files: seq<(string, string)>): map<(string, string), string> {
    IndexEntries(KeyedFiles(rule, files))
  }

  function KeyedFiles(rule: KeyRule, files: seq<(string, string)>): (r: seq<(seq<(string, string)>, string)>)
    ensures |r| == |files| && forall i | 0 <= i < |files| :: r[i] == (KeysBy(rule, files[i].0), files[i].1)
  {
    seq(|files|, i requires 0 <= i < |files| => (KeysBy(rule, files[i].0), files[i].1))
  }

  /** A later file indexed under the same key replaces the earlier one:
      the file a key ends at is the last one indexed under it, for the
      index as written and the intended one alike. */
  lemma KmlIndexLastWins(rule: KeyRule, files: seq<(string, string)>, i: nat, key: (string, string))
    requires i < |files| && key in KeysBy(rule, files[i].0)
    requires forall j | i < j < |files| :: key !in KeysBy(rule, files[j].0)
    ensures key in KmlIndex(rule, files) && KmlIndex(rule, files)[key] == files[i].1
  {
    IndexLastWins(KeyedFiles(rule, files), i, key);
  }

  /** Nothing is indexed that no file names, under either rule. */
  lemma KmlIndexOnlyNamedKeys(rule: KeyRule, files: seq<(string, string)>, key: (string, string)) returns (i: nat)
    requires key in KmlIndex(rule, files)
    ensures i < |files| && key in KeysBy(rule, files[i].0) && KmlIndex(rule, files)[key] == files[i].1
  {
    i := IndexOnlyNamedKeys(KeyedFiles(rule, files), key);
  }

  /** The index of a single file holds exactly that file's keys, each
      mapped to its path. */
  lemma SingleFileIndex(rule: KeyRule, f: string, path: string)
    ensures KmlIndex(rule, [(f, path)]).Keys == set key | key in KeysBy(rule, f)
    ensures forall key | key in KmlIndex(rule, [(f, path)]) :: KmlIndex(rule, [(f, path)])[key] == path
  {
    var entries := KeyedFiles(rule, [(f, path)]);
    assert entries == [(KeysBy(rule, f), path)];
    assert entries[..0] == [];
    var empty: map<(string, string), string> := map[];
    var idx := AddKeys(empty, KeysBy(rule, f), path);
    assert IndexEntries(entries) == idx;
    assert empty.Keys == {};
  }

  /** The index as written never finds the flights of a KML named with an
      upper-case `N`: the one file below is indexed only under the flight
      "1N2", where the intended index finds it under flights 1 and 2. */
  lemma UpperCaseNFlightsNotFound(f: string, path: string)
    requires f == "tof_6_flt_1N2_a.kml"
    ensures KmlIndex(AsWritten, [(f, path)]).Keys == {("6", "1N2")}
    ensures KmlIndex(AsWritten, [(f, path)])[("6", "1N2")] == path
    ensures KmlIndex(Intended, [(f, path)]).Keys == {("6", "1"), ("6", "2")}
    ensures KmlIndex(Intended, [(f, path)])[("6", "1")] == path
    ensures KmlIndex(Intended, [(f, path)])[("6", "2")] == path
  {
    KeysOfUpperCaseN(f);
    SingleFileIndex(AsWritten, f, path);
    SingleFileIndex(Intended, f, path);
  }

  /** The key sets of that file under each rule. */
  lemma KeysOfUpperCaseN(f: string)
    requires f == "tof_6_flt_1N2_a.kml"
    ensures (set key | key in KeysBy(AsWritten, f)) == {("6", "1N2")}
    ensures (set key | key in KeysBy(Intended, f)) == {("6", "1"), ("6", "2")}
  {
    var w, i := KeysBy(AsWritten, f), KeysBy(Intended, f);
    UpperCaseNSeparatorIsLost();
    KeySetOfOne(w, ("6", "1N2"));
    KeySetOfTwo(i, ("6", "1"), ("6", "2"));
  }

  lemma KeySetOfOne(keys: seq<(string, string)>, a: (string, string))
    requires keys == [a]
    ensures (set key | key in keys) == {a}
  {
  }

  lemma KeySetOfTwo(keys: seq<(string, string)>, a: (string, string), b: (string, string))
    requires keys == [a, b]
    ensures (set key | key in keys) == {a, b}
  {
  }
}
