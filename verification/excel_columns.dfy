/** Spreadsheet column names (`xl_col_to_name` in update_excel_table.py):
    bijective base 26 over the letters A..Z, so 0 is "A", 25 is "Z" and 26
    is "AA". */
module ExcelColumns {

  predicate IsColumnLetter(c: char) {
    'A' <= c <= 'Z'
  }

  predicate IsColumnName(s: string) {
    |s| >= 1 && forall j | 0 <= j < |s| :: IsColumnLetter(s[j])
  }

  /** `chr(d + ord('A'))`. */
  function Letter(d: nat): (c: char)
    requires d < 26
    ensures IsColumnLetter(c)
  {
    (('A' as int) + d) as char
  }

  /** The digit a column letter stands for: the inverse of `Letter`. */
  function LetterValue(c: char): (d: nat)
    requires IsColumnLetter(c)
    ensures d < 26 && Letter(d) == c
  {
    (c as int) - ('A' as int)
  }

  /** The name of the zero-based column `c`: the last letter is `c % 26`, the
      rest is the name of `c / 26 - 1` when that is a column at all. */
  function ColName(c: nat): (r: string)
    ensures IsColumnName(r)
    decreases c
  {
    if c < 26 then [Letter(c)]
    else ColName(c / 26 - 1) + [Letter(c % 26)]
  }

  /** The column a name denotes. */
  function ColIndex(s: string): (c: nat)
    requires IsColumnName(s)
    decreases |s|
  {
    var n := |s| - 1;
    if n == 0 then LetterValue(s[0])
    else (ColIndex(s[..n]) + 1) * 26 + LetterValue(s[n])
  }

  /** The loop of `xl_col_to_name`, prepending one letter per turn until the
      index drops below zero. */
  method XlColToName(col: nat) returns (name: string)
    ensures name == ColName(col)
  {
    name := "";
    var c: int := col;
    while c >= 0
      invariant c >= -1
      invariant c >= 0 ==> ColName(col) == ColName(c) + name
      invariant c == -1 ==> name == ColName(col)
      decreases c + 1
    {
      name := [Letter(c % 26)] + name;
      c := c / 26 - 1;
    }
  }

  /** Every column reads back from its name. */
  lemma {:induction false} IndexOfName(c: nat)
    ensures ColIndex(ColName(c)) == c
    decreases c
  {
    if c >= 26 {
      var q := c / 26 - 1;
      var s := ColName(c);
      assert s[..|s| - 1] == ColName(q);
      IndexOfName(q);
    }
  }

  /** Every name is the name of its column: together with `IndexOfName`, a
      bijection between the naturals and the non-empty words over A..Z. */
  lemma {:induction false} NameOfIndex(s: string)
    requires IsColumnName(s)
    ensures ColName(ColIndex(s)) == s
    decreases |s|
  {
    var n := |s| - 1;
    if n > 0 {
      var p := s[..n];
      NameOfIndex(p);
      var c := ColIndex(s);
      assert c / 26 - 1 == ColIndex(p) && c % 26 == LetterValue(s[n]);
      assert s == p + [s[n]];
    }
  }

  /** Distinct columns get distinct names. */
  lemma ColNameInjective(a: nat, b: nat)
    requires ColName(a) == ColName(b)
    ensures a == b
  {
    IndexOfName(a);
    IndexOfName(b);
  }

  lemma FirstColumns()
    ensures ColName(0) == "A" && ColName(25) == "Z"
    ensures ColName(26) == "AA" && ColName(701) == "ZZ" && ColName(702) == "AAA"
  {
    assert ColName(26) == ColName(0) + [Letter(0)];
    assert ColName(701) == ColName(25) + [Letter(25)];
    assert ColName(702) == ColName(26) + [Letter(0)];
  }
}
