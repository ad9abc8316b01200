/** Acquisition timestamps in folder names (update_excel_table.py):
    `_parse_folder_timestamp` reads `_YYYY_MM_DD_hh_mm_ss[_ffffff]` at the
    very end of a name, and `find_corresponding_swir` pairs a VNIR folder
    with the SWIR folder of the same prefix whose timestamp is nearest,
    within a threshold. */
module FolderTimestamps {
  import opened Common

  /** The fields `datetime.datetime` is built from. */
  datatype DateTime = DateTime(year: nat, month: nat, day: nat, hour: nat, minute: nat, second: nat, micro: nat)

  predicate IsLeap(y: nat) {
    y % 4 == 0 && (y % 100 != 0 || y % 400 == 0)
  }

  function DaysInMonth(y: nat, m: nat): nat
    requires 1 <= m <= 12
  {
    if m == 2 then (if IsLeap(y) then 29 else 28)
    else if m == 4 || m == 6 || m == 9 || m == 11 then 30
    else 31
  }

  /** The field ranges `datetime.datetime` accepts; anything else raises
      `ValueError`. */
  predicate Valid(t: DateTime) {
    && 1 <= t.year <= 9999
    && 1 <= t.month <= 12
    && 1 <= t.day <= DaysInMonth(t.year, t.month)
    && t.hour < 24 && t.minute < 60 && t.second < 60
    && t.micro < 1000000
  }

  function Pow10(n: nat): (r: nat)
    ensures r >= 1
  {
    if n == 0 then 1 else 10 * Pow10(n - 1)
  }

  function Zeros(n: nat): (r: string)
    ensures |r| == n && DigitsOnly(r)
  {
    if n == 0 then [] else Zeros(n - 1) + ['0']
  }

  /** `str(n).zfill(w)` for a value that fits in `w` digits. */
  function Pad(n: nat, w: nat): (r: string)
    ensures |r| == w && DigitsOnly(r)
    ensures n < Pow10(w) ==> DecimalValue(r) == n
  {
    if w == 0 then []
    else
      var r := Pad(n / 10, w - 1) + [DigitChar(n % 10)];
      assert r[..|r| - 1] == Pad(n / 10, w - 1);
      r
  }

  /** Positions of the separators in `YYYY_MM_DD_hh_mm_ss`. */
  predicate IsSeparatorPosition(j: int) {
    j == 4 || j == 7 || j == 10 || j == 13 || j == 16
  }

  /** `\d{4}_\d{2}_\d{2}_\d{2}_\d{2}_\d{2}`. */
  predicate IsCore(c: string) {
    |c| == 19 && forall j | 0 <= j < 19 :: if IsSeparatorPosition(j) then c[j] == '_' else IsDigit(c[j])
  }

  /** The last `n` characters of the name match
      `_(\d{4}_\d{2}_\d{2}_\d{2}_\d{2}_\d{2}(?:_\d{1,6})?)$`: 20 characters
      without a fraction, 22 to 27 with one. */
  predicate StampAt(name: string, n: nat) {
    && (n == 20 || 22 <= n <= 27)
    && n <= |name|
    && name[|name| - n] == '_'
    && IsCore(name[|name| - n + 1..|name| - n + 20])
    && (n > 20 ==> name[|name| - n + 20] == '_' && AllDigits(name[|name| - n + 21..]))
  }

  /** The longest match length at most `n`. */
  function LongestFrom(name: string, n: nat): (r: Option<nat>)
    ensures r.Some? ==> r.value <= n && StampAt(name, r.value)
    ensures r.Some? ==> forall k | r.value < k <= n :: !StampAt(name, k)
    ensures r.None? <==> forall k: nat | k <= n :: !StampAt(name, k)
  {
    if n < 20 then None
    else if StampAt(name, n) then Some(n)
    else LongestFrom(name, n - 1)
  }

  /** `re.search` tries start positions from the left, and an earlier start
      is a longer suffix: the match found is the longest one. */
  function StampLength(name: string): (r: Option<nat>)
    ensures r.Some? ==> StampAt(name, r.value)
    ensures r.Some? ==> forall k | k > r.value :: !StampAt(name, k)
    ensures r.None? <==> forall k :: !StampAt(name, k)
  {
    LongestFrom(name, 27)
  }

  /** The fields of a match of length `n`: the six numbers, and the
      fraction right-padded with zeros to six digits (`ljust(6, '0')`). */
  function Fields(name: string, n: nat): DateTime
    requires StampAt(name, n)
  {
    var c := name[|name| - n + 1..|name| - n + 20];
    assert forall j | 0 <= j < 19 && !IsSeparatorPosition(j) :: IsDigit(c[j]);
    var f := if n == 20 then "" else name[|name| - n + 21..];
    DateTime(DecimalValue(c[0..4]), DecimalValue(c[5..7]), DecimalValue(c[8..10]),
             DecimalValue(c[11..13]), DecimalValue(c[14..16]), DecimalValue(c[17..19]),
             DecimalValue(f + Zeros(6 - |f|)))
  }

  /** What `_parse_folder_timestamp` ends in: no match (`None`), a match
      whose fields `datetime` rejects (the `ValueError` goes uncaught), or a
      timestamp. */
  datatype Parsed = NoStamp | BadDate | Stamp(t: DateTime)

  function ParseFolderTimestamp(name: string): (r: Parsed)
    ensures r.NoStamp? <==> forall k :: !StampAt(name, k)
    ensures r.Stamp? ==> Valid(r.t)
    ensures r.Stamp? ==> r.t == Fields(name, StampLength(name).value)
    ensures r.BadDate? ==> !Valid(Fields(name, StampLength(name).value))
  {
    match StampLength(name)
    case None => NoStamp
    case Some(n) =>
      var t := Fields(name, n);
      if Valid(t) then Stamp(t) else BadDate
  }

  /** Appending a zero keeps the digits and multiplies the value by ten. */
  lemma AppendZero(s: string)
    requires DigitsOnly(s)
    ensures DigitsOnly(s + ['0']) && DecimalValue(s + ['0']) == 10 * DecimalValue(s)
  {
    assert (s + ['0'])[..|s|] == s;
  }

  lemma DigitsConcat(a: string, b: string)
    requires DigitsOnly(a) && DigitsOnly(b)
    ensures DigitsOnly(a + b)
  {
    assert forall j | |a| <= j < |a + b| :: (a + b)[j] == b[j - |a|];
  }

  lemma MulTen(v: nat, p: nat)
    ensures 10 * (v * p) == v * (10 * p)
  {
  }

  /** `int(f.ljust(6, '0'))` is the fraction read as millionths: a single
      digit 5 is half a second. */
  lemma {:induction false} PaddedFraction(f: string, k: nat)
    requires DigitsOnly(f)
    ensures DigitsOnly(f + Zeros(k))
    ensures DecimalValue(f + Zeros(k)) == DecimalValue(f) * Pow10(k)
  {
    DigitsConcat(f, Zeros(k));
    if k > 0 {
      var g := f + Zeros(k - 1);
      PaddedFraction(f, k - 1);
      assert f + Zeros(k) == g + ['0'];
      AppendZero(g);
      MulTen(DecimalValue(f), Pow10(k - 1));
    } else {
      assert f + Zeros(0) == f;
    }
  }

  /** `a_b_c_d_e_f`. */
  function Join6(a: string, b: string, c: string, d: string, e: string, f: string): string {
    a + "_" + b + "_" + c + "_" + d + "_" + e + "_" + f
  }

  lemma Join6Slices(a: string, b: string, c: string, d: string, e: string, f: string)
    requires |a| == 4 && |b| == 2 && |c| == 2 && |d| == 2 && |e| == 2 && |f| == 2
    ensures var s := Join6(a, b, c, d, e, f);
      && |s| == 19
      && s[0..4] == a && s[5..7] == b && s[8..10] == c
      && s[11..13] == d && s[14..16] == e && s[17..19] == f
      && s[4] == '_' && s[7] == '_' && s[10] == '_' && s[13] == '_' && s[16] == '_'
  {
    var s := Join6(a, b, c, d, e, f);
    assert s == a + ("_" + b) + ("_" + c) + ("_" + d) + ("_" + e) + ("_" + f);
  }

  lemma Join6Core(a: string, b: string, c: string, d: string, e: string, f: string)
    requires |a| == 4 && |b| == 2 && |c| == 2 && |d| == 2 && |e| == 2 && |f| == 2
    requires DigitsOnly(a) && DigitsOnly(b) && DigitsOnly(c) && DigitsOnly(d) && DigitsOnly(e) && DigitsOnly(f)
    ensures IsCore(Join6(a, b, c, d, e, f))
  {
    var s := Join6(a, b, c, d, e, f);
    Join6Slices(a, b, c, d, e, f);
    forall j | 0 <= j < 19 && !IsSeparatorPosition(j)
      ensures IsDigit(s[j])
    {
      if j < 4 { assert s[j] == s[0..4][j]; }
      else if j < 7 { assert s[j] == s[5..7][j - 5]; }
      else if j < 10 { assert s[j] == s[8..10][j - 8]; }
      else if j < 13 { assert s[j] == s[11..13][j - 11]; }
      else if j < 16 { assert s[j] == s[14..16][j - 14]; }
      else { assert s[j] == s[17..19][j - 17]; }
    }
  }

  /** The date and time part of the suffix the acquisition software writes. */
  function CoreOf(t: DateTime): string {
    Join6(Pad(t.year, 4), Pad(t.month, 2), Pad(t.day, 2), Pad(t.hour, 2), Pad(t.minute, 2), Pad(t.second, 2))
  }

  /** The whole suffix, with a full six-digit fraction. */
  function Format(t: DateTime): (r: string)
    ensures |r| == 27
  {
    Join6Slices(Pad(t.year, 4), Pad(t.month, 2), Pad(t.day, 2), Pad(t.hour, 2), Pad(t.minute, 2), Pad(t.second, 2));
    "_" + CoreOf(t) + "_" + Pad(t.micro, 6)
  }

  /** Round trip: a valid timestamp written at the end of any name reads
      back unchanged. */
  lemma ParseFormatted(prefix: string, t: DateTime)
    requires Valid(t)
    ensures ParseFolderTimestamp(prefix + Format(t)) == Stamp(t)
  {
    var name := prefix + Format(t);
    var c := CoreOf(t);
    var start := |name| - 27;
    Join6Slices(Pad(t.year, 4), Pad(t.month, 2), Pad(t.day, 2), Pad(t.hour, 2), Pad(t.minute, 2), Pad(t.second, 2));
    Join6Core(Pad(t.year, 4), Pad(t.month, 2), Pad(t.day, 2), Pad(t.hour, 2), Pad(t.minute, 2), Pad(t.second, 2));
    assert name[start..] == "_" + c + "_" + Pad(t.micro, 6);
    assert name[start] == '_' && name[start + 20] == '_';
    assert name[start + 1..start + 20] == c;
    assert name[start + 21..] == Pad(t.micro, 6);
    assert StampAt(name, 27);
    assert StampLength(name) == Some(27);
    assert Pad(t.micro, 6) + Zeros(0) == Pad(t.micro, 6);
    assert Pow10(2) == 100 && Pow10(4) == 10000 && Pow10(6) == 1000000;
    assert Fields(name, 27) == t;
  }

  // The timeline: microseconds since 0001-01-01, as `datetime` subtraction
  // counts them.

  function DaysInYear(y: nat): nat {
    if IsLeap(y) then 366 else 365
  }

  /** Days from 0001-01-01 to January 1st of `y` (proleptic Gregorian). */
  function DaysBeforeYear(y: nat): int
    requires y >= 1
  {
    365 * (y - 1) + (y - 1) / 4 - (y - 1) / 100 + (y - 1) / 400
  }

  /** Days from January 1st to the first of month `m` (13 means the end of
      the year). */
  function DaysBeforeMonth(y: nat, m: nat): nat
    requires 1 <= m <= 13
  {
    if m == 1 then 0 else DaysBeforeMonth(y, m - 1) + DaysInMonth(y, m - 1)
  }

  function DayIndex(t: DateTime): int
    requires Valid(t)
  {
    DaysBeforeYear(t.year) + DaysBeforeMonth(t.year, t.month) + t.day - 1
  }

  const MicrosPerDay: nat := 86400000000

  function TimeOfDay(t: DateTime): (r: nat)
    requires Valid(t)
    ensures r < MicrosPerDay
  {
    ((t.hour * 60 + t.minute) * 60 + t.second) * 1000000 + t.micro
  }

  function Micros(t: DateTime): int
    requires Valid(t)
  {
    DayIndex(t) * MicrosPerDay + TimeOfDay(t)
  }

  /** Field-by-field order: the order of the timestamps as written. */
  predicate Before(a: DateTime, b: DateTime) {
    || a.year < b.year
    || (a.year == b.year && a.month < b.month)
    || (a.year == b.year && a.month == b.month && a.day < b.day)
    || (a.year == b.year && a.month == b.month && a.day == b.day && TimeBefore(a, b))
  }

  predicate TimeBefore(a: DateTime, b: DateTime) {
    || a.hour < b.hour
    || (a.hour == b.hour && a.minute < b.minute)
    || (a.hour == b.hour && a.minute == b.minute && a.second < b.second)
    || (a.hour == b.hour && a.minute == b.minute && a.second == b.second && a.micro < b.micro)
  }

  lemma YearStep(y: nat)
    requires y >= 1
    ensures DaysBeforeYear(y + 1) == DaysBeforeYear(y) + DaysInYear(y)
  {
    Step4(y);
    Step100(y);
    Step400(y);
    CenturyDivides(y);
    var a, b := DaysBeforeYear(y + 1), DaysBeforeYear(y);
    assert a - b == 365 + (y / 4 - (y - 1) / 4) - (y / 100 - (y - 1) / 100) + (y / 400 - (y - 1) / 400);
  }

  /** Multiples of 400 are multiples of 100, which are multiples of 4. */
  lemma CenturyDivides(y: nat)
    ensures y % 400 == 0 ==> y % 100 == 0
    ensures y % 100 == 0 ==> y % 4 == 0
  {
    if y % 400 == 0 {
      FourHundredDivides(y);
    }
    if y % 100 == 0 {
      HundredDivides(y);
    }
  }

  lemma FourHundredDivides(y: nat)
    requires y % 400 == 0
    ensures y % 100 == 0
  {
    var q := y / 400;
    assert y == 400 * q;
    MultipleOf100(4 * q);
  }

  lemma HundredDivides(y: nat)
    requires y % 100 == 0
    ensures y % 4 == 0
  {
    var c := y / 100;
    assert y == 100 * c;
    MultipleOf4(25 * c);
  }

  lemma MultipleOf100(m: nat)
    ensures (100 * m) % 100 == 0
  {
  }

  lemma MultipleOf4(m: nat)
    ensures (4 * m) % 4 == 0
  {
  }

  lemma Step4(y: nat)
    requires y >= 1
    ensures y / 4 - (y - 1) / 4 == if y % 4 == 0 then 1 else 0
  {
  }

  lemma Step100(y: nat)
    requires y >= 1
    ensures y / 100 - (y - 1) / 100 == if y % 100 == 0 then 1 else 0
  {
  }

  lemma Step400(y: nat)
    requires y >= 1
    ensures y / 400 - (y - 1) / 400 == if y % 400 == 0 then 1 else 0
  {
  }

  lemma {:induction false} YearsAscend(a: nat, b: nat)
    requires 1 <= a < b
    ensures DaysBeforeYear(a) + DaysInYear(a) <= DaysBeforeYear(b)
    decreases b - a
  {
    YearStep(a);
    if a + 1 < b {
      YearsAscend(a + 1, b);
    }
  }

  lemma MonthsFillYear(y: nat)
    ensures DaysBeforeMonth(y, 13) == DaysInYear(y)
  {
    var feb := DaysInMonth(y, 2);
    assert DaysBeforeMonth(y, 2) == 31;
    assert DaysBeforeMonth(y, 3) == 31 + feb;
    assert DaysBeforeMonth(y, 4) == 62 + feb;
    assert DaysBeforeMonth(y, 5) == 92 + feb;
    assert DaysBeforeMonth(y, 6) == 123 + feb;
    assert DaysBeforeMonth(y, 7) == 153 + feb;
    assert DaysBeforeMonth(y, 8) == 184 + feb;
    assert DaysBeforeMonth(y, 9) == 215 + feb;
    assert DaysBeforeMonth(y, 10) == 245 + feb;
    assert DaysBeforeMonth(y, 11) == 276 + feb;
    assert DaysBeforeMonth(y, 12) == 306 + feb;
    assert DaysBeforeMonth(y, 13) == 337 + feb;
  }

  lemma {:induction false} MonthsAscend(y: nat, a: nat, b: nat)
    requires 1 <= a < b <= 13
    ensures DaysBeforeMonth(y, a) + DaysInMonth(y, a) <= DaysBeforeMonth(y, b)
    decreases b - a
  {
    if a + 1 < b {
      MonthsAscend(y, a + 1, b);
    }
  }

  /** A valid date's day index lies within its year. */
  lemma DayWithinYear(t: DateTime)
    requires Valid(t)
    ensures DaysBeforeYear(t.year) <= DayIndex(t) < DaysBeforeYear(t.year) + DaysInYear(t.year)
  {
    MonthsFillYear(t.year);
    if t.month < 12 {
      MonthsAscend(t.year, t.month, 13);
    }
  }

  lemma DayIndexAscends(a: DateTime, b: DateTime)
    requires Valid(a) && Valid(b)
    requires a.year < b.year || (a.year == b.year && a.month < b.month)
      || (a.year == b.year && a.month == b.month && a.day < b.day)
    ensures DayIndex(a) < DayIndex(b)
  {
    if a.year < b.year {
      DayWithinYear(a);
      DayWithinYear(b);
      YearsAscend(a.year, b.year);
    } else if a.month < b.month {
      MonthsAscend(a.year, a.month, b.month);
    }
  }

  /** The timeline respects the written order: a timestamp written earlier
      lies strictly earlier, so distinct valid timestamps never coincide and
      `|Micros(a) - Micros(b)|` is the distance `datetime` subtraction
      measures. */
  lemma MicrosChronological(a: DateTime, b: DateTime)
    requires Valid(a) && Valid(b) && Before(a, b)
    ensures Micros(a) < Micros(b)
  {
    if !(a.year == b.year && a.month == b.month && a.day == b.day) {
      DayIndexAscends(a, b);
      assert (DayIndex(a) + 1) * MicrosPerDay <= DayIndex(b) * MicrosPerDay;
    }
  }

  lemma MicrosInjective(a: DateTime, b: DateTime)
    requires Valid(a) && Valid(b) && Micros(a) == Micros(b)
    ensures a == b
  {
    if Before(a, b) {
      MicrosChronological(a, b);
    } else if Before(b, a) {
      MicrosChronological(b, a);
    }
  }

  function Delta(a: DateTime, b: DateTime): nat
    requires Valid(a) && Valid(b)
  {
    if Micros(a) <= Micros(b) then Micros(b) - Micros(a) else Micros(a) - Micros(b)
  }

  /** `re.match(r'(.+?)(?=_\d{4})', name)`: at least one character, then
      the first `_` followed by four digits. */
  predicate PrefixEndsAt(name: string, k: nat) {
    1 <= k && k + 5 <= |name| && name[k] == '_' && AllDigits(name[k + 1..k + 5])
  }

  function PrefixEndFrom(name: string, k: nat): (r: Option<nat>)
    requires k >= 1
    ensures r.Some? ==> k <= r.value && PrefixEndsAt(name, r.value)
    ensures r.Some? ==> forall j | k <= j < r.value :: !PrefixEndsAt(name, j)
    ensures r.None? <==> forall j | k <= j :: !PrefixEndsAt(name, j)
    decreases |name| - k
  {
    if k + 5 > |name| then None
    else if PrefixEndsAt(name, k) then Some(k)
    else PrefixEndFrom(name, k + 1)
  }

  /** The VNIR name's prefix, the key of the SWIR index. */
  function VnirPrefix(name: string): (r: Option<string>)
    ensures r.Some? ==> exists k: nat | PrefixEndsAt(name, k) :: r.value == name[..k] && forall j | 1 <= j < k :: !PrefixEndsAt(name, j)
    ensures r.None? <==> forall k :: !PrefixEndsAt(name, k)
  {
    match PrefixEndFrom(name, 1)
    case None => None
    case Some(k) => Some(name[..k])
  }

  /** A SWIR folder with its parsed timestamp. */
  datatype SwirEntry = SwirEntry(t: DateTime, path: string)

  predicate ValidEntries(cands: seq<SwirEntry>) {
    forall i | 0 <= i < |cands| :: Valid(cands[i].t)
  }

  /** The distances `|Δt|` of the candidates from `t`. */
  function Distances(cands: seq<SwirEntry>, t: DateTime): (ds: seq<nat>)
    requires Valid(t) && ValidEntries(cands)
    ensures |ds| == |cands|
    ensures forall j | 0 <= j < |cands| :: ds[j] == Delta(cands[j].t, t)
  {
    seq(|cands|, j requires 0 <= j < |cands| => Delta(cands[j].t, t))
  }

  /** `min(..., key=...)`: the first position of the least value. */
  function FirstMin(ds: seq<nat>): (i: nat)
    requires ds != []
    ensures i < |ds|
    ensures forall j | 0 <= j < |ds| :: ds[i] <= ds[j]
    ensures forall j | 0 <= j < i :: ds[j] > ds[i]
  {
    var n := |ds| - 1;
    if n == 0 then 0
    else
      var prev := FirstMin(ds[..n]);
      assert forall j | 0 <= j < n :: ds[..n][j] == ds[j];
      if ds[n] < ds[prev] then n else prev
  }

  /** What `find_corresponding_swir` ends in. `Unreadable` is the uncaught
      `ValueError` of a VNIR name with an impossible date. */
  datatype SwirMatch = NoSwir | Swir(path: string) | Unreadable

  /** The SWIR candidates for a VNIR name: the index entry of its prefix, or
      none. */
  function Candidates(name: string, index: map<string, seq<SwirEntry>>): seq<SwirEntry> {
    match VnirPrefix(name)
    case None => []
    case Some(p) => if p in index then index[p] else []
  }

  const MatchThresholdSeconds: nat := 30

  /** `find_corresponding_swir(name, index, thresholdSeconds)`. The float
      `total_seconds()` compared with a whole number of seconds decides
      exactly as the microsecond count does. */
  function FindCorrespondingSwir(name: string, index: map<string, seq<SwirEntry>>, thresholdSeconds: nat): (r: SwirMatch)
    requires forall p | p in index :: ValidEntries(index[p])
    ensures r.Unreadable? <==> ParseFolderTimestamp(name).BadDate?
    ensures r.Swir? <==> && ParseFolderTimestamp(name).Stamp?
                         && exists j | 0 <= j < |Candidates(name, index)| ::
                              Distances(Candidates(name, index), ParseFolderTimestamp(name).t)[j] <= thresholdSeconds * 1000000
    ensures r.Swir? ==> var ds := Distances(Candidates(name, index), ParseFolderTimestamp(name).t);
      ds != [] && r.path == Candidates(name, index)[FirstMin(ds)].path
  {
    match ParseFolderTimestamp(name)
    case NoStamp => NoSwir
    case BadDate => Unreadable
    case Stamp(t) =>
      var cands := Candidates(name, index);
      if cands == [] then NoSwir
      else
        var ds := Distances(cands, t);
        var i := FirstMin(ds);
        if ds[i] <= thresholdSeconds * 1000000 then Swir(cands[i].path) else NoSwir
  }
}
