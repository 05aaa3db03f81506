/** The lexicographic order on identifiers, and sorting by it. */
module Ordering {
  import opened Collections

  predicate Leq(a: string, b: string) {
    if a == "" then true
    else if b == "" then false
    else if a[0] == b[0] then Leq(a[1..], b[1..])
    else a[0] < b[0]
  }

  /** The order of a dictionary: a prefix comes first, and otherwise the first difference decides. */
  ghost predicate Precedes(a: string, b: string) {
    a <= b || exists i :: 0 <= i < |a| && i < |b| && a[..i] == b[..i] && a[i] < b[i]
  }

  lemma {:induction false} LeqExact(a: string, b: string)
    ensures Leq(a, b) <==> Precedes(a, b)
    decreases |a|
  {
    if a != "" && b != "" {
      if a[0] == b[0] {
        LeqExact(a[1..], b[1..]);
        SameHead(a, b);
      } else {
        assert a[..0] == b[..0];
        if i: int :| 0 <= i < |a| && i < |b| && a[..i] == b[..i] && a[i] < b[i] {
          assert i > 0 ==> a[..i][0] == b[..i][0];
        }
      }
    }
  }

  /** A common first character does not matter. */
  lemma SameHead(a: string, b: string)
    requires a != "" && b != "" && a[0] == b[0]
    ensures Precedes(a, b) <==> Precedes(a[1..], b[1..])
  {
    assert a == [a[0]] + a[1..] && b == [b[0]] + b[1..];
    if i: int :| 0 <= i < |a[1..]| && i < |b[1..]| && a[1..][..i] == b[1..][..i] && a[1..][i] < b[1..][i] {
      assert a[..i + 1] == [a[0]] + a[1..][..i] && b[..i + 1] == [b[0]] + b[1..][..i];
      assert a[i + 1] < b[i + 1];
    }
    if i: int :| 0 <= i < |a| && i < |b| && a[..i] == b[..i] && a[i] < b[i] {
      assert i > 0;
      assert a[1..][..i - 1] == a[..i][1..] && b[1..][..i - 1] == b[..i][1..];
      assert a[1..][i - 1] < b[1..][i - 1];
    }
  }

  lemma {:induction false} LeqReflexive(a: string)
    ensures Leq(a, a)
  {
    if a != "" {
      LeqReflexive(a[1..]);
    }
  }

  lemma {:induction false} LeqTotal(a: string, b: string)
    ensures Leq(a, b) || Leq(b, a)
  {
    if a != "" && b != "" && a[0] == b[0] {
      LeqTotal(a[1..], b[1..]);
    }
  }

  lemma {:induction false} LeqAntisymmetric(a: string, b: string)
    requires Leq(a, b) && Leq(b, a)
    ensures a == b
  {
    if a != "" && b != "" {
      LeqAntisymmetric(a[1..], b[1..]);
      assert a == [a[0]] + a[1..] && b == [b[0]] + b[1..];
    }
  }

  lemma {:induction false} LeqTransitive(a: string, b: string, c: string)
    requires Leq(a, b) && Leq(b, c)
    ensures Leq(a, c)
  {
    if a != "" && a[0] == b[0] == c[0] {
      LeqTransitive(a[1..], b[1..], c[1..]);
    }
  }

  // ---------- minima ----------

  ghost predicate IsMin(s: set<string>, m: string) {
    m in s && forall x :: x in s ==> Leq(m, x)
  }

  lemma {:induction false} MinExists(s: set<string>)
    requires s != {}
    ensures exists m :: IsMin(s, m)
    decreases |s|
  {
    var x :| x in s;
    LeqReflexive(x);
    if s - {x} == {} {
      assert forall y :: y in s ==> y == x || y in s - {x};
      assert IsMin(s, x);
    } else {
      MinExists(s - {x});
      var n :| IsMin(s - {x}, n);
      LeqTotal(x, n);
      var m := if Leq(x, n) then x else n;
      forall y | y in s ensures Leq(m, y) {
        if y != x && m == x {
          LeqTransitive(x, n, y);
        }
      }
      assert IsMin(s, m);
    }
  }

  ghost function MinOf(s: set<string>): (m: string)
    requires s != {}
    ensures IsMin(s, m)
  {
    MinExists(s);
    var m :| IsMin(s, m);
    m
  }

  lemma MinUnique(s: set<string>, m: string)
    requires IsMin(s, m)
    ensures s != {} && m == MinOf(s)
  {
    LeqAntisymmetric(m, MinOf(s));
  }

  // ---------- sorted sequences ----------

  ghost predicate Sorted(xs: seq<string>) {
    forall i, j :: 0 <= i < j < |xs| ==> Leq(xs[i], xs[j])
  }

  /** The one ascending listing of a set. */
  ghost function SortSet(s: set<string>): (r: seq<string>)
    decreases |s|
  {
    if s == {} then [] else [MinOf(s)] + SortSet(s - {MinOf(s)})
  }

  lemma {:induction false} SortSetIsSorted(s: set<string>)
    ensures Sorted(SortSet(s)) && NoDuplicates(SortSet(s)) && Elements(SortSet(s)) == s && |SortSet(s)| == |s|
    decreases |s|
  {
    if s != {} {
      var m := MinOf(s);
      SortSetIsSorted(s - {m});
      PrependMin(m, SortSet(s - {m}), s);
    }
  }

  lemma PrependMin(m: string, rest: seq<string>, s: set<string>)
    requires IsMin(s, m) && Sorted(rest) && NoDuplicates(rest) && Elements(rest) == s - {m}
    ensures Sorted([m] + rest) && NoDuplicates([m] + rest) && Elements([m] + rest) == s
  {
    forall i | 0 <= i < |rest| ensures rest[i] in s && rest[i] != m {
      assert rest[i] in Elements(rest);
    }
    var r := [m] + rest;
    forall i, j | 0 <= i < j < |r| ensures Leq(r[i], r[j]) && r[i] != r[j] {
      assert r[j] == rest[j - 1];
      if i > 0 {
        assert r[i] == rest[i - 1];
      }
    }
    forall x ensures x in Elements(r) <==> x in s {
      if x in rest {
        assert x in Elements(rest);
      }
      if x in s && x != m {
        assert x in Elements(rest);
      }
    }
  }

  /** Whatever order the elements arrive in, sorting lists them the same way. */
  lemma {:induction false} SortedIsSortSet(xs: seq<string>)
    requires Sorted(xs) && NoDuplicates(xs)
    ensures xs == SortSet(Elements(xs))
    decreases |xs|
  {
    if xs == [] {
      assert Elements(xs) == {};
    } else {
      var s := Elements(xs);
      assert xs[0] in s;
      forall x | x in s ensures Leq(xs[0], x) {
        LeqReflexive(x);
      }
      MinUnique(s, xs[0]);
      assert xs == [xs[0]] + xs[1..];
      assert Elements(xs[1..]) == s - {xs[0]} by {
        forall x | x in s && x != xs[0] ensures x in xs[1..] {
          var i :| 0 <= i < |xs| && xs[i] == x;
          assert xs[1..][i - 1] == x;
        }
      }
      SortedIsSortSet(xs[1..]);
    }
  }

  /** `sorted`: an insertion sort. */
  method SortIds(xs: seq<string>) returns (r: seq<string>)
    requires NoDuplicates(xs)
    ensures r == SortSet(Elements(xs))
  {
    r := [];
    var k := 0;
    assert Elements(r) == Elements(xs[..0]);
    while k < |xs|
      invariant 0 <= k <= |xs|
      invariant Sorted(r) && NoDuplicates(r) && Elements(r) == Elements(xs[..k])
    {
      assert xs[k] !in r by {
        assert xs[k] !in xs[..k];
        assert xs[k] !in Elements(r);
      }
      r := Insert(r, xs[k]);
      assert xs[..k + 1] == xs[..k] + [xs[k]];
      k := k + 1;
    }
    assert xs[..k] == xs;
    SortedIsSortSet(r);
  }

  method Insert(xs: seq<string>, x: string) returns (r: seq<string>)
    requires Sorted(xs) && NoDuplicates(xs) && x !in xs
    ensures Sorted(r) && NoDuplicates(r) && Elements(r) == Elements(xs) + {x}
  {
    var k := 0;
    while k < |xs| && Leq(xs[k], x)
      invariant 0 <= k <= |xs|
      invariant forall i :: 0 <= i < k ==> Leq(xs[i], x)
    {
      k := k + 1;
    }
    r := xs[..k] + [x] + xs[k..];
    forall i | k <= i < |xs| ensures Leq(x, xs[i]) {
      LeqTotal(x, xs[k]);
      if i > k {
        LeqTransitive(x, xs[k], xs[i]);
      }
    }
    forall y ensures y in r <==> y in xs || y == x {
      assert xs == xs[..k] + xs[k..];
    }
  }
}
