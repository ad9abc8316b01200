/** Versioned output names in update_excel_table.py: a workbook `name.ext`
    is rewritten as `name_vN.ext`, `make_unique_filename` picks the next
    free version and `find_latest_file` the highest existing one. Both look
    at one directory listing (base names only). */
module VersionedFiles {
  import opened Common

  /** The position of the version digits in `name_v<digits>ext`. */
  function VersionDigits(f: string, name: string, ext: string): string
    requires |name| + 2 + |ext| <= |f|
  {
    f[|name| + 2..|f| - |ext|]
  }

  /** `f` matches `^name_v(\d+)ext$`. */
  predicate HasVersionShape(f: string, name: string, ext: string) {
    && |name| + 2 + |ext| < |f|
    && StartsWith(f, name + "_v")
    && EndsWith(f, ext)
    && AllDigits(VersionDigits(f, name, ext))
  }

  /** The version number `int(m.group(1))` of a matching listing entry. */
  function VersionOf(f: string, name: string, ext: string): (r: Option<nat>)
    ensures r.Some? <==> HasVersionShape(f, name, ext)
    ensures r.Some? ==> f == name + "_v" + VersionDigits(f, name, ext) + ext
    ensures r.Some? ==> r.value == DecimalValue(VersionDigits(f, name, ext))
  {
    if HasVersionShape(f, name, ext) then
      var d := VersionDigits(f, name, ext);
      assert f == f[..|name| + 2] + d + f[|f| - |ext|..];
      Some(DecimalValue(d))
    else None
  }

  /** A name spelled `name_v<d>ext` reads back as version `d`. */
  lemma VersionOfSpelled(name: string, ext: string, d: string)
    requires AllDigits(d)
    ensures VersionOf(name + "_v" + d + ext, name, ext) == Some(DecimalValue(d))
  {
    var f := name + "_v" + d + ext;
    assert f[..|name| + 2] == name + "_v";
    assert f[|f| - |ext|..] == ext;
    assert VersionDigits(f, name, ext) == d;
  }

  /** The largest version among the listing's matching entries (0 when there
      is none): the source's `max_v`. */
  function MaxVersion(listing: seq<string>, name: string, ext: string): (m: nat)
    ensures forall f | f in listing && VersionOf(f, name, ext).Some? :: VersionOf(f, name, ext).value <= m
    ensures m > 0 ==> exists f | f in listing :: VersionOf(f, name, ext) == Some(m)
  {
    if listing == [] then 0
    else
      var rest := MaxVersion(listing[1..], name, ext);
      assert forall f | f in listing :: f == listing[0] || f in listing[1..];
      match VersionOf(listing[0], name, ext)
      case Some(v) => if v > rest then v else rest
      case None => rest
  }

  /** A name whose version exceeds every listed one is not listed. */
  lemma AboveMaxNotListed(listing: seq<string>, name: string, ext: string, f: string)
    requires VersionOf(f, name, ext).Some? && VersionOf(f, name, ext).value > MaxVersion(listing, name, ext)
    ensures f !in listing
  {
  }

  /** `make_unique_filename` on the base name `b`: one past the highest
      listed version, else `_v2` when `b` itself is listed, else `b`. */
  function MakeUnique(listing: seq<string>, b: string): (r: string)
    ensures r !in listing
    ensures var (name, ext) := SplitExt(b);
      var m := MaxVersion(listing, name, ext);
      && (m > 0 ==> VersionOf(r, name, ext) == Some(m + 1))
      && (m == 0 && b in listing ==> VersionOf(r, name, ext) == Some(2))
      && (m == 0 && b !in listing ==> r == b)
  {
    var (name, ext) := SplitExt(b);
    var m := MaxVersion(listing, name, ext);
    if m > 0 then
      var r := name + "_v" + Decimal(m + 1) + ext;
      VersionOfSpelled(name, ext, Decimal(m + 1));
      AboveMaxNotListed(listing, name, ext, r);
      r
    else if b in listing then
      var r := name + "_v" + Decimal(2) + ext;
      VersionOfSpelled(name, ext, Decimal(2));
      AboveMaxNotListed(listing, name, ext, r);
      r
    else b
  }

  /** The version `find_latest_file` gives a listing entry: 0 for the base
      name itself, N for `name_vN.ext`, none for anything else. */
  function Candidate(f: string, b: string): Option<nat> {
    if f == b then Some(0) else VersionOf(f, SplitExt(b).0, SplitExt(b).1)
  }

  /** The candidates' versions, entry by entry. */
  function Candidates(listing: seq<string>, b: string): (r: seq<Option<nat>>)
    ensures |r| == |listing| && forall i | 0 <= i < |listing| :: r[i] == Candidate(listing[i], b)
  {
    seq(|listing|, i requires 0 <= i < |listing| => Candidate(listing[i], b))
  }

  /** The index of the first highest version, scanning left to right. */
  function BestOf(vs: seq<Option<nat>>): (r: Option<nat>)
    ensures r.Some? ==> r.value < |vs| && vs[r.value].Some?
    ensures r.Some? ==> forall j | 0 <= j < |vs| && vs[j].Some? :: vs[j].value <= vs[r.value].value
    ensures r.Some? ==> forall j | 0 <= j < r.value && vs[j].Some? :: vs[j].value < vs[r.value].value
    ensures r.None? <==> forall j | 0 <= j < |vs| :: vs[j].None?
  {
    if vs == [] then None
    else
      var n := |vs| - 1;
      var prev := BestOf(vs[..n]);
      assert forall j | 0 <= j < n :: vs[..n][j] == vs[j];
      match vs[n]
      case None => prev
      case Some(v) =>
        if prev.None? || vs[prev.value].value < v then Some(n) else prev
  }

  /** The index Python's `max(versions, key=...)` returns: the first entry
      with the highest version. */
  function BestIndex(listing: seq<string>, b: string): (r: Option<nat>)
    ensures r.Some? ==> r.value < |listing| && Candidate(listing[r.value], b).Some?
    ensures r.Some? ==> forall j | 0 <= j < |listing| && Candidate(listing[j], b).Some? ::
      Candidate(listing[j], b).value <= Candidate(listing[r.value], b).value
    ensures r.Some? ==> forall j | 0 <= j < r.value && Candidate(listing[j], b).Some? ::
      Candidate(listing[j], b).value < Candidate(listing[r.value], b).value
    ensures r.None? <==> forall j | 0 <= j < |listing| :: Candidate(listing[j], b).None?
  {
    var vs := Candidates(listing, b);
    var r := BestOf(vs);
    assert r.None? <==> forall j | 0 <= j < |listing| :: vs[j].None?;
    r
  }

  /** `find_latest_file`: the first entry of highest version, or nothing
      when no entry is a candidate. */
  function FindLatest(listing: seq<string>, b: string): (r: Option<string>)
    ensures r.None? <==> forall f | f in listing :: Candidate(f, b).None?
    ensures r.Some? ==> r.value in listing && Candidate(r.value, b).Some?
    ensures r.Some? ==> forall f | f in listing && Candidate(f, b).Some? :: Candidate(f, b).value <= Candidate(r.value, b).value
  {
    match BestIndex(listing, b)
    case None => None
    case Some(i) => Some(listing[i])
  }

  /** An entry appended with a version above every listed one is the latest. */
  lemma {:induction false} AppendedAboveAllIsBest(listing: seq<string>, b: string, f: string)
    requires Candidate(f, b).Some?
    requires forall g | g in listing && Candidate(g, b).Some? :: Candidate(g, b).value < Candidate(f, b).value
    ensures BestIndex(listing + [f], b) == Some(|listing|)
  {
    var vs := Candidates(listing + [f], b);
    assert vs[..|listing|] == Candidates(listing, b);
    assert forall j | 0 <= j < |listing| :: (listing + [f])[j] == listing[j];
    var prev := BestOf(Candidates(listing, b));
    if prev.Some? {
      assert listing[prev.value] in listing;
    }
  }

  /** The next run reads back what this run wrote: unless the directory
      holds a `name_v0.ext` (a version the scripts never write), the latest
      file after adding the unique name is that name. */
  lemma LatestAfterUnique(listing: seq<string>, b: string)
    requires forall f | f in listing :: VersionOf(f, SplitExt(b).0, SplitExt(b).1) != Some(0)
    ensures FindLatest(listing + [MakeUnique(listing, b)], b) == Some(MakeUnique(listing, b))
  {
    var (name, ext) := SplitExt(b);
    var r := MakeUnique(listing, b);
    var m := MaxVersion(listing, name, ext);
    if r != b {
      // a versioned name is longer than the base it extends
      assert VersionOf(r, name, ext).Some?;
      assert |r| > |b|;
    }
    forall g | g in listing && Candidate(g, b).Some?
      ensures Candidate(g, b).value < Candidate(r, b).value
    {
      if g != b {
        assert VersionOf(g, name, ext).value <= m;
      }
    }
    AppendedAboveAllIsBest(listing, b, r);
  }

  /** The exception to the read-back: with only `a_v0.x` listed, the unique
      name is the base `a.x`, yet the latest file afterwards is `a_v0.x`,
      which comes first with the same version 0. */
  lemma VersionZeroShadowsBase()
    ensures MakeUnique(["a_v0.x"], "a.x") == "a.x"
    ensures FindLatest(["a_v0.x", "a.x"], "a.x") == Some("a_v0.x")
  {
    SplitAX();
    VersionOfSpelled("a", ".x", "0");
    assert "a" + "_v" + "0" + ".x" == "a_v0.x";
    assert MaxVersion(["a_v0.x"], "a", ".x") == 0;
    assert Candidates(["a_v0.x", "a.x"], "a.x") == [Some(0), Some(0)] by {
      assert Candidate("a.x", "a.x") == Some(0);
      assert Candidate("a_v0.x", "a.x") == Some(0);
    }
    FirstOfEqualVersions();
  }

  lemma SplitAX()
    ensures SplitExt("a.x") == ("a", ".x")
  {
    assert LastIndexOf("a.x", '.') == LastIndexOf("a.", '.') by { assert "a.x"[..2] == "a."; }
    assert LastIndexOf("a.", '.') == Some(1);
    assert "a.x"[..1] == "a" && "a.x"[1..] == ".x";
    assert HasNonDotBefore("a.x", 1) by { assert "a.x"[0] != '.'; }
  }

  /** Of two equal versions the first wins. */
  lemma FirstOfEqualVersions()
    ensures BestOf([Some(0), Some(0)]) == Some(0)
  {
    assert [Some(0), Some(0)][..1] == [Some(0)];
    assert [Some(0)][..0] == [];
  }
}
