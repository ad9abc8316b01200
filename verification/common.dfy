/** Shared vocabulary: an optional value, and the small string predicates the
    scripts use on file and folder names (prefix/suffix/substring tests, ASCII
    case folding, decimal digit runs and Python's `os.path.splitext`). */
module Common {

  datatype Option<+T> = None | Some(value: T)

  /** `s.startswith(p)` */
  predicate StartsWith(s: string, p: string) {
    |p| <= |s| && s[..|p|] == p
  }

  /** `s.endswith(p)` */
  predicate EndsWith(s: string, p: string) {
    |p| <= |s| && s[|s| - |p|..] == p
  }

  /** `p` occurs in `s` starting at index `i`. */
  predicate OccursAt(s: string, p: string, i: nat) {
    i + |p| <= |s| && s[i..i + |p|] == p
  }

  /** `p in s` (true for the empty `p`, as in Python). */
  predicate Contains(s: string, p: string) {
    exists i: nat | i <= |s| :: OccursAt(s, p, i)
  }

  /** `Contains` decided by a scan, so that it can be computed. */
  function FirstOccurrence(s: string, p: string, from: nat): (r: Option<nat>)
    requires from <= |s|
    ensures r.Some? ==> from <= r.value <= |s| && OccursAt(s, p, r.value)
    ensures r.Some? ==> forall i: nat | from <= i < r.value :: !OccursAt(s, p, i)
    ensures r.None? ==> forall i: nat | from <= i <= |s| :: !OccursAt(s, p, i)
    decreases |s| - from
  {
    if OccursAt(s, p, from) then Some(from)
    else if from == |s| then None
    else FirstOccurrence(s, p, from + 1)
  }

  lemma ContainsByScan(s: string, p: string)
    ensures Contains(s, p) <==> FirstOccurrence(s, p, 0).Some?
  {
    if Contains(s, p) {
      var i: nat :| i <= |s| && OccursAt(s, p, i);
    }
  }

  function LowerChar(c: char): char {
    if 'A' <= c <= 'Z' then (c as int + 32) as char else c
  }

  function UpperChar(c: char): char {
    if 'a' <= c <= 'z' then (c as int - 32) as char else c
  }

  /** `s.lower()`, restricted to ASCII letters. */
  function Lower(s: string): (r: string)
    ensures |r| == |s|
    ensures forall i | 0 <= i < |s| :: r[i] == LowerChar(s[i])
  {
    seq(|s|, i requires 0 <= i < |s| => LowerChar(s[i]))
  }

  /** `s.upper()`, restricted to ASCII letters. */
  function Upper(s: string): (r: string)
    ensures |r| == |s|
    ensures forall i | 0 <= i < |s| :: r[i] == UpperChar(s[i])
  {
    seq(|s|, i requires 0 <= i < |s| => UpperChar(s[i]))
  }

  predicate IsDigit(c: char) {
    '0' <= c <= '9'
  }

  /** Python's `str.isdigit()` on ASCII text: non-empty and digits only. */
  predicate AllDigits(s: string) {
    |s| > 0 && forall i | 0 <= i < |s| :: IsDigit(s[i])
  }

  /** Every character is a digit (the empty string included). */
  predicate DigitsOnly(s: string) {
    forall i | 0 <= i < |s| :: IsDigit(s[i])
  }

  function DigitValue(c: char): nat
    requires IsDigit(c)
  {
    c as int - '0' as int
  }

  function DigitChar(d: nat): (c: char)
    requires d < 10
    ensures IsDigit(c) && DigitValue(c) == d
  {
    (d + '0' as int) as char
  }

  /** `int(s)` for a string of decimal digits (0 for the empty string). */
  function DecimalValue(s: string): nat
    requires DigitsOnly(s)
  {
    if s == [] then 0
    else DecimalValue(s[..|s| - 1]) * 10 + DigitValue(s[|s| - 1])
  }

  /** `str(n)`: decimal digits without leading zeros. */
  function Decimal(n: nat): (r: string)
    ensures AllDigits(r)
    ensures DecimalValue(r) == n
  {
    if n < 10 then [DigitChar(n)]
    else
      var r := Decimal(n / 10) + [DigitChar(n % 10)];
      assert r[..|r| - 1] == Decimal(n / 10);
      r
  }

  /** Index of the last occurrence of `c` in `s`. */
  function LastIndexOf(s: string, c: char): (r: Option<nat>)
    ensures r.Some? ==> r.value < |s| && s[r.value] == c
    ensures r.Some? ==> forall j | r.value < j < |s| :: s[j] != c
    ensures r.None? ==> forall j | 0 <= j < |s| :: s[j] != c
  {
    if s == [] then None
    else if s[|s| - 1] == c then Some(|s| - 1)
    else LastIndexOf(s[..|s| - 1], c)
  }

  /** Some character before index `d` is not a dot. */
  predicate HasNonDotBefore(s: string, d: nat)
    requires d <= |s|
  {
    exists j | 0 <= j < d :: s[j] != '.'
  }

  /** Python's `os.path.splitext` on a base name (no directory part): the
      extension starts at the last dot, unless every character before that
      dot is itself a dot (".bashrc", "..x"), in which case there is none. */
  function SplitExt(b: string): (r: (string, string))
    ensures r.0 + r.1 == b
    ensures r.1 == [] || (r.1[0] == '.' && forall j | 1 <= j < |r.1| :: r.1[j] != '.')
    ensures r.1 != [] ==> HasNonDotBefore(b, |r.0|)
  {
    match LastIndexOf(b, '.')
    case None => (b, [])
    case Some(d) =>
      if HasNonDotBefore(b, d) then
        assert b[..d] + b[d..] == b;
        (b[..d], b[d..])
      else (b, [])
  }

  /** The name without its extension: `os.path.splitext(b)[0]`. */
  function Stem(b: string): string {
    SplitExt(b).0
  }

  /** Python's `str.split(sep)` for a one-character separator: the pieces
      hold no separator and joined back with it give the input. */
  function Split(s: string, sep: char): (r: seq<string>)
    ensures |r| >= 1
    ensures forall k | 0 <= k < |r| :: forall j | 0 <= j < |r[k]| :: r[k][j] != sep
    ensures Join(r, sep) == s
  {
    match FirstIndexOf(s, sep)
    case None => [s]
    case Some(i) =>
      var rest := Split(s[i + 1..], sep);
      assert ([s[..i]] + rest)[1..] == rest;
      assert s == s[..i] + [sep] + s[i + 1..];
      [s[..i]] + rest
  }

  /** Python's `sep.join(pieces)`. */
  function Join(pieces: seq<string>, sep: char): string {
    if pieces == [] then ""
    else if |pieces| == 1 then pieces[0]
    else pieces[0] + [sep] + Join(pieces[1..], sep)
  }

  function FirstIndexOf(s: string, c: char): (r: Option<nat>)
    ensures r.Some? ==> r.value < |s| && s[r.value] == c
    ensures r.Some? ==> forall j | 0 <= j < r.value :: s[j] != c
    ensures r.None? ==> forall j | 0 <= j < |s| :: s[j] != c
  {
    if s == [] then None
    else if s[0] == c then Some(0)
    else match FirstIndexOf(s[1..], c)
      case None => None
      case Some(i) => Some(i + 1)
  }

  /** Python's `s[-k:]`: the last `k` characters, or all of `s` when shorter. */
  function LastChars(s: string, k: nat): (r: string)
    ensures |r| == if |s| < k then |s| else k
    ensures EndsWith(s, r)
  {
    if |s| <= k then s else s[|s| - k..]
  }

  /** The end of the maximal run of digits that starts at `i`. */
  function DigitRunEnd(s: string, i: nat): (e: nat)
    requires i <= |s|
    ensures i <= e <= |s|
    ensures forall j | i <= j < e :: IsDigit(s[j])
    ensures e == |s| || !IsDigit(s[e])
    decreases |s| - i
  {
    if i < |s| && IsDigit(s[i]) then DigitRunEnd(s, i + 1) else i
  }

  /** `[x for x in s if p(x)]`. */
  function Filter<T>(s: seq<T>, p: T -> bool): (r: seq<T>)
    ensures |r| <= |s|
    ensures forall i | 0 <= i < |r| :: r[i] in s && p(r[i])
    ensures forall i | 0 <= i < |s| && p(s[i]) :: s[i] in r
    ensures forall i | 0 <= i < |s| :: multiset(r)[s[i]] == if p(s[i]) then multiset(s)[s[i]] else 0
  {
    if s == [] then []
    else
      var rest := Filter(s[1..], p);
      var r := if p(s[0]) then [s[0]] + rest else rest;
      FilterMembers(s, p, rest, r);
      FilterCounts(s, p, rest, r);
      r
  }

  /** One step of `Filter`'s membership clauses. */
  lemma FilterMembers<T>(s: seq<T>, p: T -> bool, rest: seq<T>, r: seq<T>)
    requires s != [] && |rest| <= |s| - 1
    requires forall i | 0 <= i < |rest| :: rest[i] in s[1..] && p(rest[i])
    requires forall i | 0 <= i < |s[1..]| && p(s[1..][i]) :: s[1..][i] in rest
    requires r == if p(s[0]) then [s[0]] + rest else rest
    ensures |r| <= |s|
    ensures forall i | 0 <= i < |r| :: r[i] in s && p(r[i])
    ensures forall i | 0 <= i < |s| && p(s[i]) :: s[i] in r
  {
    assert forall i | 1 <= i < |s| :: s[i] == s[1..][i - 1];
  }

  /** One step of `Filter`'s multiplicity clause: keeping or dropping the
      head keeps the count of every element right. */
  lemma FilterCounts<T>(s: seq<T>, p: T -> bool, rest: seq<T>, r: seq<T>)
    requires s != []
    requires forall i | 0 <= i < |rest| :: rest[i] in s[1..]
    requires forall i | 0 <= i < |s[1..]| :: multiset(rest)[s[1..][i]] == if p(s[1..][i]) then multiset(s[1..])[s[1..][i]] else 0
    requires r == if p(s[0]) then [s[0]] + rest else rest
    ensures forall i | 0 <= i < |s| :: multiset(r)[s[i]] == if p(s[i]) then multiset(s)[s[i]] else 0
  {
    assert s == [s[0]] + s[1..];
    forall i | 0 <= i < |s|
      ensures multiset(r)[s[i]] == if p(s[i]) then multiset(s)[s[i]] else 0
    {
      var x := s[i];
      assert multiset(s)[x] == multiset([s[0]])[x] + multiset(s[1..])[x];
      if p(s[0]) {
        assert multiset(r)[x] == multiset([s[0]])[x] + multiset(rest)[x];
      }
      if x !in s[1..] {
        assert x !in rest;
      }
    }
  }

  /** `Filter` one element at a time: the head is kept exactly when it
      passes, ahead of the filtered tail. */
  lemma FilterCons<T>(s: seq<T>, p: T -> bool)
    requires s != []
    ensures Filter(s, p) == (if p(s[0]) then [s[0]] else []) + Filter(s[1..], p)
  {
  }

  /** `any(p(x) for x in s)`. */
  function Any<T>(s: seq<T>, p: T -> bool): (b: bool)
    ensures b <==> exists k | 0 <= k < |s| :: p(s[k])
  {
    if s == [] then false
    else
      assert forall k | 1 <= k < |s| :: s[k] == s[1..][k - 1];
      p(s[0]) || Any(s[1..], p)
  }

  /** Nothing passes the filter when no element satisfies the test. */
  lemma {:induction false} FilterNone<T>(s: seq<T>, p: T -> bool)
    requires forall i | 0 <= i < |s| :: !p(s[i])
    ensures Filter(s, p) == []
  {
    if s != [] {
      assert forall i | 1 <= i < |s| :: s[1..][i - 1] == s[i];
      FilterNone(s[1..], p);
    }
  }

  /** The first piece of a split is everything before the first
      separator, or the whole string when there is none. */
  lemma SplitFirst(s: string, sep: char)
    ensures var head := Split(s, sep)[0];
      && |head| <= |s| && s[..|head|] == head
      && (|head| == |s| || s[|head|] == sep)
  {
  }

  /** Splitting at a separator that follows a separator-free prefix gives
      that prefix, then the pieces of the rest. */
  lemma SplitAfter(s: string, sep: char, i: nat)
    requires i < |s| && s[i] == sep && forall j | 0 <= j < i :: s[j] != sep
    ensures Split(s, sep) == [s[..i]] + Split(s[i + 1..], sep)
  {
    assert FirstIndexOf(s, sep) == Some(i);
  }
}
