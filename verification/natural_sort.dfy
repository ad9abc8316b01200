/** The natural sort key of update_excel_table.py (`natural_sort_key`): the
    name is cut into digit runs and the text between them, digit runs
    compare as numbers and text case-insensitively, so "F2" sorts before
    "F10". */
module NaturalSort {
  import opened Common
  import opened Sorting

  predicate NoDigits(t: string) {
    forall j | 0 <= j < |t| :: !IsDigit(t[j])
  }

  /** `"".join(parts)`. */
  function Concat(parts: seq<string>): string {
    if parts == [] then [] else parts[0] + Concat(parts[1..])
  }

  /** The first digit at or after `i`, or `|s|` when there is none. */
  function NextDigit(s: string, i: nat): (k: nat)
    requires i <= |s|
    ensures i <= k <= |s|
    ensures forall j | i <= j < k :: !IsDigit(s[j])
    ensures k < |s| ==> IsDigit(s[k])
    decreases |s| - i
  {
    if i == |s| || IsDigit(s[i]) then i else NextDigit(s, i + 1)
  }

  /** `re.split(r'(\d+)', s)`: text and digit runs alternating, starting and
      ending with a (possibly empty) text piece. */
  function Chunks(s: string): (r: seq<string>)
    ensures |r| % 2 == 1
    decreases |s|
  {
    var i := NextDigit(s, 0);
    if i == |s| then [s]
    else
      var e := DigitRunEnd(s, i + 1);
      [s[..i], s[i..e]] + Chunks(s[e..])
  }

  lemma SplitThree(s: string, i: nat, e: nat)
    requires i <= e <= |s|
    ensures s == s[..i] + s[i..e] + s[e..]
  {
  }

  lemma JoinStep(a: string, b: string, c: string, rest: seq<string>)
    requires Concat(rest) == c
    ensures Concat([a, b] + rest) == a + b + c
  {
    var r := [a, b] + rest;
    assert r[1..] == [b] + rest && r[1..][1..] == rest;
  }

  /** Joining the pieces gives the name back. */
  lemma {:induction false} ChunksJoin(s: string)
    ensures Concat(Chunks(s)) == s
    decreases |s|
  {
    var i := NextDigit(s, 0);
    if i == |s| {
      assert Concat([s]) == s + Concat([]);
    } else {
      var e := DigitRunEnd(s, i + 1);
      ChunksJoin(s[e..]);
      JoinStep(s[..i], s[i..e], s[e..], Chunks(s[e..]));
      SplitThree(s, i, e);
    }
  }

  /** The pieces alternate: text without digits at even positions, maximal
      digit runs at odd ones, and no empty text between two runs. */
  lemma {:induction false} ChunksAlternate(s: string)
    ensures forall k | 0 <= k < |Chunks(s)| && k % 2 == 0 :: NoDigits(Chunks(s)[k])
    ensures forall k | 0 <= k < |Chunks(s)| && k % 2 == 1 :: AllDigits(Chunks(s)[k])
    ensures forall k | 0 < k < |Chunks(s)| - 1 && k % 2 == 0 :: Chunks(s)[k] != []
    ensures |Chunks(s)| > 1 && |s| > 0 && !IsDigit(s[0]) ==> Chunks(s)[0] != []
    decreases |s|
  {
    var i := NextDigit(s, 0);
    if i < |s| {
      var e := DigitRunEnd(s, i + 1);
      var rest := Chunks(s[e..]);
      ChunksAlternate(s[e..]);
      AlternateStep(s[..i], s[i..e], rest);
      if |rest| > 1 {
        assert s[e..][0] == s[e];
      }
    }
  }

  lemma AlternateStep(a: string, b: string, rest: seq<string>)
    requires NoDigits(a) && AllDigits(b) && |rest| % 2 == 1
    requires forall k | 0 <= k < |rest| && k % 2 == 0 :: NoDigits(rest[k])
    requires forall k | 0 <= k < |rest| && k % 2 == 1 :: AllDigits(rest[k])
    requires forall k | 0 < k < |rest| - 1 && k % 2 == 0 :: rest[k] != []
    requires |rest| > 1 ==> rest[0] != []
    ensures var r := [a, b] + rest;
      && (forall k | 0 <= k < |r| && k % 2 == 0 :: NoDigits(r[k]))
      && (forall k | 0 <= k < |r| && k % 2 == 1 :: AllDigits(r[k]))
      && (forall k | 0 < k < |r| - 1 && k % 2 == 0 :: r[k] != [])
  {
    var r := [a, b] + rest;
    assert forall k | 2 <= k < |r| :: r[k] == rest[k - 2];
  }

  /** One element of the key: a number for a digit run, lower-cased text
      otherwise. */
  datatype KeyPart = Num(n: nat) | Text(t: string)

  /** `natural_sort_key(s)`. Each piece is tested with `isdigit`, and since
      the pieces alternate, numbers sit exactly at the odd positions: two
      keys never put a number against a text at the same position, so
      comparing them never raises. */
  function NaturalKey(s: string): (r: seq<KeyPart>)
    ensures |r| == |Chunks(s)|
    ensures forall k | 0 <= k < |r| :: r[k].Num? <==> k % 2 == 1
  {
    var c := Chunks(s);
    ChunksAlternate(s);
    seq(|c|, k requires 0 <= k < |c| =>
      if AllDigits(c[k]) then Num(DecimalValue(c[k])) else Text(Lower(c[k])))
  }

  /** Python's `<` on two parts of the same kind. */
  predicate PartLess(x: KeyPart, y: KeyPart)
    requires x.Num? == y.Num?
  {
    if x.Num? then x.n < y.n else LexLe(x.t, y.t) && x.t != y.t
  }

  /** Python's `<` on lists: the first differing position decides, and a
      proper prefix is smaller. */
  predicate KeyLess(a: seq<KeyPart>, b: seq<KeyPart>)
    requires forall k | 0 <= k < |a| && k < |b| :: a[k].Num? == b[k].Num?
  {
    if a == [] then b != []
    else if b == [] then false
    else if a[0] == b[0] then KeyLess(a[1..], b[1..])
    else PartLess(a[0], b[0])
  }

  /** A name made of digit-free text and a number splits into that text,
      the number and an empty tail. */
  lemma TextThenNumber(p: string, m: nat)
    requires NoDigits(p)
    ensures Chunks(p + Decimal(m)) == [p, Decimal(m), ""]
  {
    var s := p + Decimal(m);
    var d := Decimal(m);
    assert forall j | 0 <= j < |p| :: s[j] == p[j];
    assert NextDigit(s, 0) == |p| by {
      assert IsDigit(s[|p|]);
    }
    assert DigitRunEnd(s, |p| + 1) == |s|;
    assert s[..|p|] == p && s[|p|..|s|] == d && s[|s|..] == "";
    assert Chunks("") == [""];
  }

  /** The point of the key: names that differ only in a trailing number are
      ordered by the number, where plain string order would put "F10"
      before "F2". */
  lemma NumbersSortByValue(p: string, m: nat, n: nat)
    requires NoDigits(p) && m < n
    ensures KeyLess(NaturalKey(p + Decimal(m)), NaturalKey(p + Decimal(n)))
  {
    TextThenNumber(p, m);
    TextThenNumber(p, n);
    var a := NaturalKey(p + Decimal(m));
    var b := NaturalKey(p + Decimal(n));
    assert a[0] == b[0] == Text(Lower(p));
    assert a[1] == Num(m) && b[1] == Num(n);
    assert a[1..][0] == a[1] && b[1..][0] == b[1];
  }
}
