/** Python's `sorted`, as an insertion sort under a total preorder, and the
    code-point lexicographic order Python uses to compare strings. */
module Sorting {

  ghost predicate TotalPreorder<T(!new)>(le: (T, T) -> bool) {
    && (forall a, b :: le(a, b) || le(b, a))
    && (forall a, b, c :: le(a, b) && le(b, c) ==> le(a, c))
  }

  predicate SortedBy<T>(s: seq<T>, le: (T, T) -> bool) {
    forall i, j | 0 <= i < j < |s| :: le(s[i], s[j])
  }

  /** Insert `x` in front of the first element it is not after. */
  function Insert<T(!new)>(x: T, s: seq<T>, le: (T, T) -> bool): (r: seq<T>)
    requires TotalPreorder(le)
    requires SortedBy(s, le)
    ensures SortedBy(r, le)
    ensures multiset(r) == multiset(s) + multiset{x}
  {
    if s == [] then [x]
    else if le(x, s[0]) then
      assert forall j | 0 <= j < |s| :: le(x, s[j]);
      [x] + s
    else
      var rest := Insert(x, s[1..], le);
      assert s == [s[0]] + s[1..];
      assert forall j | 0 <= j < |rest| :: le(s[0], rest[j]) by {
        forall j | 0 <= j < |rest|
          ensures le(s[0], rest[j])
        {
          assert rest[j] in multiset(rest);
          assert rest[j] in multiset(s[1..]) || rest[j] == x;
          if rest[j] != x {
            assert rest[j] in s[1..];
          }
        }
      }
      [s[0]] + rest
  }

  function InsertionSort<T(!new)>(s: seq<T>, le: (T, T) -> bool): (r: seq<T>)
    requires TotalPreorder(le)
    ensures SortedBy(r, le)
    ensures multiset(r) == multiset(s)
    ensures |r| == |s|
  {
    if s == [] then []
    else
      assert s == [s[0]] + s[1..];
      var r := Insert(s[0], InsertionSort(s[1..], le), le);
      assert |r| == |multiset(r)|;
      r
  }

  /** Python's `a <= b` on strings: code-point lexicographic, a proper
      prefix before its extensions. */
  predicate LexLe(a: string, b: string)
    decreases |a|
  {
    |a| == 0 || (|b| > 0 && (a[0] < b[0] || (a[0] == b[0] && LexLe(a[1..], b[1..]))))
  }

  lemma {:induction false} LexLeTotal(a: string, b: string)
    ensures LexLe(a, b) || LexLe(b, a)
    decreases |a|
  {
    if |a| > 0 && |b| > 0 && a[0] == b[0] {
      LexLeTotal(a[1..], b[1..]);
    }
  }

  lemma {:induction false} LexLeTransitive(a: string, b: string, c: string)
    requires LexLe(a, b) && LexLe(b, c)
    ensures LexLe(a, c)
    decreases |a|
  {
    if |a| > 0 && a[0] == b[0] && b[0] == c[0] {
      LexLeTransitive(a[1..], b[1..], c[1..]);
    }
  }

  lemma {:induction false} LexLeAntisymmetric(a: string, b: string)
    requires LexLe(a, b) && LexLe(b, a)
    ensures a == b
    decreases |a|
  {
    if |a| > 0 {
      LexLeAntisymmetric(a[1..], b[1..]);
      assert a == [a[0]] + a[1..] && b == [b[0]] + b[1..];
    }
  }

  function StringLe(): (string, string) -> bool {
    (a: string, b: string) => LexLe(a, b)
  }

  lemma StringOrderIsTotalPreorder()
    ensures TotalPreorder(StringLe())
  {
    forall a: string, b: string
      ensures LexLe(a, b) || LexLe(b, a)
    {
      LexLeTotal(a, b);
    }
    forall a: string, b: string, c: string | LexLe(a, b) && LexLe(b, c)
      ensures LexLe(a, c)
    {
      LexLeTransitive(a, b, c);
    }
  }

  /** `sorted(names)` for a list of strings. */
  function SortStrings(names: seq<string>): (r: seq<string>)
    ensures |r| == |names|
    ensures multiset(r) == multiset(names)
    ensures forall i, j | 0 <= i < j < |r| :: LexLe(r[i], r[j])
  {
    StringOrderIsTotalPreorder();
    InsertionSort(names, StringLe())
  }

  function NatLe(): (nat, nat) -> bool {
    (a: nat, b: nat) => a <= b
  }

  /** `sorted(numbers)` for a list of naturals. */
  function SortNats(xs: seq<nat>): (r: seq<nat>)
    ensures |r| == |xs|
    ensures multiset(r) == multiset(xs)
    ensures forall i, j | 0 <= i < j < |r| :: r[i] <= r[j]
  {
    assert TotalPreorder(NatLe());
    InsertionSort(xs, NatLe())
  }
}
