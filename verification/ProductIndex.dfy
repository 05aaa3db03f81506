/** The newest-N index of a forecast layer and the removal of its old directories
    (src/EWMRS/rap/uint16_pipeline.py). */
module ProductIndex {
  import opened Collections
  import opened Ordering

  // ---------- the newest timestamps of a set ----------

  ghost function Newer(s: set<string>, x: string): set<string> {
    set y | y in s && y != x && Leq(x, y)
  }

  /** Those that fewer than `n` others follow. */
  ghost function Newest(s: set<string>, n: nat): (r: set<string>)
    ensures r <= s
  {
    set x | x in s && |Newer(s, x)| < n
  }

  function Take(s: seq<string>, n: nat): seq<string> {
    if n <= |s| then s[..n] else s
  }

  /** The index file of a layer that has indexed the timestamps `s`: newest first, at most `n`. */
  ghost function IndexOf(s: set<string>, n: nat): seq<string> {
    Take(Reverse(SortSet(s)), n)
  }

  lemma {:induction false} NewerShrinks(s: set<string>, x: string, y: string)
    requires x in s && y in s && Leq(x, y)
    ensures Newer(s, y) <= Newer(s, x)
    ensures x != y ==> |Newer(s, y)| < |Newer(s, x)|
  {
    forall z | z in Newer(s, y) ensures z in Newer(s, x) {
      LeqTransitive(x, y, z);
      if z == x {
        LeqAntisymmetric(x, y);
      }
    }
    if x != y {
      SubsetSize(Newer(s, y), Newer(s, x) - {y});
    }
  }

  /** The elements of the newest-first listing have as many newer ones as their position says. */
  lemma {:induction false} NewerInListing(xs: seq<string>, k: nat)
    requires Sorted(xs) && NoDuplicates(xs) && k < |xs|
    ensures Newer(Elements(xs), xs[k]) == Elements(xs[k + 1..])
    ensures |Newer(Elements(xs), xs[k])| == |xs| - 1 - k
  {
    var newer := Newer(Elements(xs), xs[k]);
    forall y ensures y in newer <==> y in Elements(xs[k + 1..]) {
      if y in newer {
        var i :| 0 <= i < |xs| && xs[i] == y;
        if i < k {
          LeqAntisymmetric(xs[i], xs[k]);
        }
        assert xs[k + 1..][i - k - 1] == y;
      }
      if y in Elements(xs[k + 1..]) {
        var j :| 0 <= j < |xs[k + 1..]| && xs[k + 1..][j] == y;
        assert xs[k + 1 + j] == y;
      }
    }
    DistinctCount(xs[k + 1..]);
  }

  function Suffix(xs: seq<string>, n: nat): seq<string> {
    if n <= |xs| then xs[|xs| - n..] else xs
  }

  lemma {:induction false} ReverseSame(xs: seq<string>)
    requires NoDuplicates(xs)
    ensures NoDuplicates(Reverse(xs)) && Elements(Reverse(xs)) == Elements(xs)
  {
    forall x ensures x in Reverse(xs) <==> x in xs {
      if x in xs {
        var i :| 0 <= i < |xs| && xs[i] == x;
        assert Reverse(xs)[|xs| - 1 - i] == x;
      }
    }
  }

  lemma {:induction false} TakeReverse(xs: seq<string>, n: nat)
    ensures Take(Reverse(xs), n) == Reverse(Suffix(xs, n))
  {
    var a, b := Take(Reverse(xs), n), Reverse(Suffix(xs, n));
    forall i | 0 <= i < |a| ensures a[i] == b[i] {
      assert Reverse(xs)[i] == xs[|xs| - 1 - i];
    }
  }

  /** The last `n` of a sorted listing are the newest. */
  lemma SuffixHoldsNewest(xs: seq<string>, n: nat)
    requires Sorted(xs) && NoDuplicates(xs)
    ensures Elements(Suffix(xs, n)) == Newest(Elements(xs), n)
    ensures Sorted(Suffix(xs, n)) && NoDuplicates(Suffix(xs, n))
  {
    SuffixSorted(xs, n);
    forall x ensures x in Elements(Suffix(xs, n)) <==> x in Newest(Elements(xs), n) {
      InSuffix(xs, n, x);
      if x in xs {
        var k :| 0 <= k < |xs| && xs[k] == x;
        LastIsNewest(xs, n, k);
        DistinctPlace(xs, k);
      }
    }
  }

  lemma SuffixSorted(xs: seq<string>, n: nat)
    requires Sorted(xs) && NoDuplicates(xs)
    ensures Sorted(Suffix(xs, n)) && NoDuplicates(Suffix(xs, n))
  {
    var kept := Suffix(xs, n);
    var d := |xs| - |kept|;
    forall i, j | 0 <= i < j < |kept| ensures Leq(kept[i], kept[j]) && kept[i] != kept[j] {
      assert kept[i] == xs[d + i] && kept[j] == xs[d + j];
    }
  }

  /** The suffix holds what stands at one of the last `n` positions. */
  lemma InSuffix(xs: seq<string>, n: nat, x: string)
    ensures x in Suffix(xs, n) <==> exists k :: 0 <= k < |xs| && |xs| - 1 - k < n && xs[k] == x
  {
    var kept := Suffix(xs, n);
    var d := |xs| - |kept|;
    if x in kept {
      var i :| 0 <= i < |kept| && kept[i] == x;
      assert xs[d + i] == x;
    }
    if k: int :| 0 <= k < |xs| && |xs| - 1 - k < n && xs[k] == x {
      assert kept[k - d] == x;
    }
  }

  lemma DistinctPlace(xs: seq<string>, k: nat)
    requires NoDuplicates(xs) && k < |xs|
    ensures forall i :: 0 <= i < |xs| && xs[i] == xs[k] ==> i == k
  {
  }

  /** An element is among the newest exactly if fewer than `n` follow it. */
  lemma LastIsNewest(xs: seq<string>, n: nat, k: nat)
    requires Sorted(xs) && NoDuplicates(xs) && k < |xs|
    ensures xs[k] in Newest(Elements(xs), n) <==> |xs| - 1 - k < n
  {
    assert xs[k] in Elements(xs);
    NewerInListing(xs, k);
  }

  /** The index holds exactly the newest timestamps. */
  lemma IndexHoldsNewest(s: set<string>, n: nat)
    ensures Elements(IndexOf(s, n)) == Newest(s, n)
    ensures NoDuplicates(IndexOf(s, n))
  {
    SortSetIsSorted(s);
    TakeReverse(SortSet(s), n);
    SuffixHoldsNewest(SortSet(s), n);
    ReverseSame(Suffix(SortSet(s), n));
  }

  /** Fewer than `n` elements of the set come after `t` in the order of a dictionary. */
  ghost predicate AmongNewest(s: set<string>, n: nat, t: string) {
    t in s && |set u | u in s && u != t && Precedes(t, u)| < n
  }

  lemma NewestExact(s: set<string>, n: nat)
    ensures forall t :: t in Newest(s, n) <==> AmongNewest(s, n, t)
  {
    forall t ensures Newer(s, t) == set u | u in s && u != t && Precedes(t, u) {
      forall u ensures Leq(t, u) <==> Precedes(t, u) {
        LeqExact(t, u);
      }
    }
  }

  /** The listing holds the `n` newest elements, each once, newest first. */
  ghost predicate ListsNewest(index: seq<string>, s: set<string>, n: nat) {
    && (forall t :: t in index <==> AmongNewest(s, n, t))
    && NoDuplicates(index) && forall i, j :: 0 <= i < j < |index| ==> Precedes(index[j], index[i])
  }

  lemma ListingIsNewest(s: set<string>, n: nat)
    ensures ListsNewest(IndexOf(s, n), s, n)
  {
    IndexHoldsNewest(s, n);
    NewestExact(s, n);
    IndexDescends(SortSet(s), IndexOf(s, n), s, n);
    assert forall t :: t in IndexOf(s, n) <==> t in Elements(IndexOf(s, n));
  }

  lemma {:induction false} IndexDescends(xs: seq<string>, index: seq<string>, s: set<string>, n: nat)
    requires xs == SortSet(s) && index == Take(Reverse(xs), n)
    ensures forall i, j :: 0 <= i < j < |index| ==> Precedes(index[j], index[i])
  {
    SortSetIsSorted(s);
    forall k | 0 <= k < |index| ensures index[k] == xs[|xs| - 1 - k] {
      FromTheEnd(xs, n, k);
    }
    forall i, j | 0 <= i < j < |index| ensures Precedes(index[j], index[i]) {
      NewestFirst(xs, index, i, j);
    }
  }

  lemma NewestFirst(xs: seq<string>, index: seq<string>, i: nat, j: nat)
    requires Sorted(xs) && |index| <= |xs| && forall k :: 0 <= k < |index| ==> index[k] == xs[|xs| - 1 - k]
    requires i < j < |index|
    ensures Precedes(index[j], index[i])
  {
    LaterFollows(xs, |xs| - 1 - j, |xs| - 1 - i, index[j], index[i]);
  }

  lemma {:induction false} FromTheEnd(xs: seq<string>, n: nat, i: nat)
    requires i < |Take(Reverse(xs), n)|
    ensures i < |xs| && Take(Reverse(xs), n)[i] == xs[|xs| - 1 - i]
  {
  }

  lemma LaterFollows(xs: seq<string>, a: nat, b: nat, earlier: string, later: string)
    requires Sorted(xs) && a < b < |xs| && earlier == xs[a] && later == xs[b]
    ensures Precedes(earlier, later)
  {
    LeqExact(earlier, later);
  }

  /** Old entries that were dropped never matter again: any set between the newest of `s` and `s` has the same
      newest. */
  lemma NewestOfPart(s: set<string>, part: set<string>, n: nat)
    requires Newest(s, n) <= part <= s
    ensures Newest(part, n) == Newest(s, n)
  {
    forall x | x in part ensures x in Newest(part, n) <==> x in Newest(s, n) {
      assert Newer(part, x) <= Newer(s, x);
      SubsetSize(Newer(part, x), Newer(s, x));
      if |Newer(s, x)| >= n {
        EnoughNewer(s, x, n);
        assert Newest(s, n) <= Newer(part, x) by {
          forall y | y in Newest(s, n) ensures y in Newer(part, x) {
            assert y in Newer(s, x);
          }
        }
        SubsetSize(Newest(s, n), Newer(part, x));
      }
    }
  }

  /** An element that is not among the newest has all `n` of them after it. */
  lemma EnoughNewer(s: set<string>, x: string, n: nat)
    requires x in s && |Newer(s, x)| >= n
    ensures Newest(s, n) <= Newer(s, x) && |Newest(s, n)| == n
  {
    forall y | y in Newest(s, n) ensures y in Newer(s, x) {
      LeqTotal(x, y);
      if Leq(y, x) {
        NewerShrinks(s, y, x);
      }
    }
    SortSetIsSorted(s);
    assert |s| > n by {
      assert Newer(s, x) <= s - {x};
      SubsetSize(Newer(s, x), s - {x});
    }
    IndexHoldsNewest(s, n);
    DistinctCount(IndexOf(s, n));
  }

  /** The online update of the index is the index of everything indexed so far. */
  lemma OnlineIndex(s: set<string>, t: string, n: nat)
    ensures IndexOf(Elements(IndexOf(s, n)) + {t}, n) == IndexOf(s + {t}, n)
  {
    IndexHoldsNewest(s, n);
    var part := Newest(s, n) + {t};
    NewestGrows(s, t, n);
    NewestOfPart(s + {t}, part, n);
    IndexByNewest(part, n);
    IndexByNewest(s + {t}, n);
  }

  lemma NewestGrows(s: set<string>, t: string, n: nat)
    ensures Newest(s + {t}, n) <= Newest(s, n) + {t}
  {
    forall x | x in Newest(s + {t}, n) && x != t ensures x in Newest(s, n) {
      assert Newer(s, x) <= Newer(s + {t}, x);
      SubsetSize(Newer(s, x), Newer(s + {t}, x));
    }
  }

  /** The index depends on nothing but the newest timestamps. */
  lemma IndexByNewest(s: set<string>, n: nat)
    ensures IndexOf(s, n) == Reverse(SortSet(Newest(s, n)))
  {
    SortSetIsSorted(s);
    TakeReverse(SortSet(s), n);
    SuffixHoldsNewest(SortSet(s), n);
    SortedIsSortSet(Suffix(SortSet(s), n));
  }

  // ---------- the layer directory ----------

  /** A layer's index file and the timestamp directories beside it. */
  datatype Layer = Layer(index: seq<string>, dirs: set<string>)

  /** The steps of the pipeline on one layer: data files appear in a directory, the index is rewritten (after a write,
      or for a directory that is reused), and old directories are removed, where a removal may fail. */
  datatype Event = DataWritten(t: string) | IndexUpdated(t: string) | CleanedUp(stuck: set<string>)

  ghost predicate Enabled(layer: Layer, e: Event) {
    e.IndexUpdated? ==> e.t in layer.dirs
  }

  ghost function Cleaned(dirs: set<string>, n: nat, stuck: set<string>): set<string> {
    if |dirs| <= n then dirs else Newest(dirs, n) + (dirs * stuck)
  }

  ghost function Step(layer: Layer, e: Event, n: nat): Layer {
    match e
    case DataWritten(t) => layer.(dirs := layer.dirs + {t})
    case IndexUpdated(t) => layer.(index := IndexOf(Elements(layer.index) + {t}, n))
    case CleanedUp(stuck) => layer.(dirs := Cleaned(layer.dirs, n, stuck))
  }

  ghost predicate ValidRun(layer: Layer, events: seq<Event>, n: nat)
    decreases |events|
  {
    events != [] ==> Enabled(layer, events[0]) && ValidRun(Step(layer, events[0], n), events[1..], n)
  }

  ghost function Run(layer: Layer, events: seq<Event>, n: nat): Layer
    requires ValidRun(layer, events, n)
    decreases |events|
  {
    if events == [] then layer else Run(Step(layer, events[0], n), events[1..], n)
  }

  /** The timestamps ever written, and ever indexed. */
  ghost function Written(events: seq<Event>): set<string> {
    set e | e in events && e.DataWritten? :: e.t
  }

  ghost function Indexed(events: seq<Event>): set<string> {
    set e | e in events && e.IndexUpdated? :: e.t
  }

  ghost predicate Inv(layer: Layer, written: set<string>, indexed: set<string>, n: nat) {
    && layer.index == IndexOf(indexed, n)
    && Newest(written, n) <= layer.dirs <= written
    && indexed <= written
  }

  lemma WholeWhenFew(s: set<string>, n: nat)
    requires |s| <= n
    ensures Newest(s, n) == s
  {
    forall x | x in s ensures x in Newest(s, n) {
      SubsetSize(Newer(s, x), s - {x});
    }
  }

  lemma CleanedHoldsNewest(dirs: set<string>, n: nat, stuck: set<string>)
    ensures Newest(dirs, n) <= Cleaned(dirs, n, stuck) <= dirs
    ensures stuck * dirs == {} ==> Cleaned(dirs, n, stuck) == Newest(dirs, n)
  {
    if |dirs| <= n {
      WholeWhenFew(dirs, n);
    } else {
      assert dirs * stuck == stuck * dirs;
    }
  }

  lemma StepInv(layer: Layer, written: set<string>, indexed: set<string>, e: Event, n: nat)
    requires Inv(layer, written, indexed, n) && Enabled(layer, e)
    ensures Inv(Step(layer, e, n),
                if e.DataWritten? then written + {e.t} else written,
                if e.IndexUpdated? then indexed + {e.t} else indexed, n)
  {
    match e
    case DataWritten(t) => NewestGrows(written, t, n);
    case IndexUpdated(t) => OnlineIndex(indexed, t, n);
    case CleanedUp(stuck) =>
      NewestOfPart(written, layer.dirs, n);
      CleanedHoldsNewest(layer.dirs, n, stuck);
  }

  lemma {:induction false} RunInv(layer: Layer, written: set<string>, indexed: set<string>, events: seq<Event>, n: nat)
    requires Inv(layer, written, indexed, n) && ValidRun(layer, events, n)
    ensures Inv(Run(layer, events, n), written + Written(events), indexed + Indexed(events), n)
    decreases |events|
  {
    if events == [] {
      assert written + Written(events) == written && indexed + Indexed(events) == indexed;
    } else {
      var e := events[0];
      StepInv(layer, written, indexed, e, n);
      var w := if e.DataWritten? then written + {e.t} else written;
      var i := if e.IndexUpdated? then indexed + {e.t} else indexed;
      RunInv(Step(layer, e, n), w, i, events[1..], n);
      FirstEvent(events);
      assert w + Written(events[1..]) == written + Written(events);
      assert i + Indexed(events[1..]) == indexed + Indexed(events);
    }
  }

  lemma FirstEvent(events: seq<Event>)
    requires events != []
    ensures Written(events) == (if events[0].DataWritten? then {events[0].t} else {}) + Written(events[1..])
    ensures Indexed(events) == (if events[0].IndexUpdated? then {events[0].t} else {}) + Indexed(events[1..])
  {
    assert events == [events[0]] + events[1..];
  }

  /** Over any run from an empty layer the index is the newest-first listing of the N newest timestamps ever indexed,
      and a clean-up leaves exactly the N newest directories ever written and those whose removal failed. */
  lemma {:induction false} IndexAndDirectories(events: seq<Event>, n: nat, stuck: set<string>)
    requires ValidRun(Layer([], {}), events, n)
    ensures var layer := Run(Layer([], {}), events, n);
            && ListsNewest(layer.index, Indexed(events), n)
            && layer.dirs <= Written(events)
            && (forall t :: AmongNewest(Written(events), n, t) ==> t in layer.dirs)
            && (forall t :: t in Step(layer, CleanedUp(stuck), n).dirs <==>
                  AmongNewest(Written(events), n, t) || (t in layer.dirs && t in stuck))
    ensures Run(Layer([], {}), events, n).index == IndexOf(Indexed(events), n)
    ensures Step(Run(Layer([], {}), events, n), CleanedUp({}), n).dirs == Newest(Written(events), n)
  {
    NewestExact(Written(events), n);
    ListingIsNewest(Indexed(events), n);
    var start := Layer([], {});
    IndexHoldsNewest({}, n);
    assert IndexOf({}, n) == [];
    RunInv(start, {}, {}, events, n);
    assert {} + Written(events) == Written(events) && {} + Indexed(events) == Indexed(events);
    var layer := Run(start, events, n);
    NewestOfPart(Written(events), layer.dirs, n);
    CleanedHoldsNewest(layer.dirs, n, {});
  }

  /** After a clean-up the index and the directories hold the same timestamps exactly when none of the N newest
      directories was left out of the index, as happens when a run stops between the data and the index. */
  lemma {:induction false} IndexMatchesDirectories(events: seq<Event>, n: nat)
    requires ValidRun(Layer([], {}), events, n)
    ensures var layer := Step(Run(Layer([], {}), events, n), CleanedUp({}), n);
            Elements(layer.index) == layer.dirs <==> Newest(Written(events), n) <= Indexed(events)
  {
    IndexAndDirectories(events, n, {});
    IndexHoldsNewest(Indexed(events), n);
    IndexedWereWritten(Layer([], {}), events, n);
    if Newest(Written(events), n) <= Indexed(events) {
      NewestOfPart(Written(events), Indexed(events), n);
    }
  }

  lemma {:induction false} IndexedWereWritten(layer: Layer, events: seq<Event>, n: nat)
    requires layer == Layer([], {}) && ValidRun(layer, events, n)
    ensures Indexed(events) <= Written(events)
  {
    IndexHoldsNewest({}, n);
    assert IndexOf({}, n) == [];
    RunInv(layer, {}, {}, events, n);
    assert {} + Written(events) == Written(events) && {} + Indexed(events) == Indexed(events);
  }

  // ---------- the two operations ----------

  class Product {
    var index: seq<string>
    var dirs: set<string>

    constructor ()
      ensures index == [] && dirs == {}
    {
      index, dirs := [], {};
    }

    ghost function State(): Layer
      reads this
    {
      Layer(index, dirs)
    }

    /** The set of the timestamps already in the file, which may list some of them twice, and the new one. */
    method Collapse(t: string) returns (timestamps: seq<string>)
      ensures NoDuplicates(timestamps) && Elements(timestamps) == Elements(index) + {t}
    {
      timestamps := [t];
      var k := 0;
      while k < |index|
        invariant 0 <= k <= |index|
        invariant NoDuplicates(timestamps) && Elements(timestamps) == Elements(index[..k]) + {t}
      {
        assert index[..k + 1] == index[..k] + [index[k]];
        Appended(index[..k], index[k]);
        if index[k] !in timestamps {
          Appended(timestamps, index[k]);
          timestamps := timestamps + [index[k]];
        } else {
          assert index[k] in Elements(timestamps);
        }
        k := k + 1;
      }
      assert index[..k] == index;
    }

    method UpdateProductIndex(t: string, n: nat)
      modifies this
      ensures State() == Step(old(State()), IndexUpdated(t), n)
      ensures NoDuplicates(index)
    {
      var timestamps := Collapse(t);
      var ascending := SortIds(timestamps);
      index := Take(Reverse(ascending), n);
      IndexHoldsNewest(Elements(old(index)) + {t}, n);
    }

    /** `listing` is the directory listing; a removal in `stuck` fails and is logged. */
    method Cleanup(listing: seq<string>, n: nat, stuck: set<string>) returns (removed: nat)
      requires NoDuplicates(listing) && Elements(listing) == dirs
      modifies this
      ensures State() == Step(old(State()), CleanedUp(stuck), n)
      ensures removed == |old(dirs)| - |dirs|
    {
      DistinctCount(listing);
      if |listing| <= n {
        return 0;
      }
      ghost var all := dirs;
      var obsolete := OldestFrom(listing, n);
      KeptAndStuck(all, Newest(all, n), Elements(obsolete), stuck);
      removed := RemoveAll(obsolete, stuck);
    }

    method RemoveDirectory(d: string)
      requires d in dirs
      modifies `dirs
      ensures dirs == old(dirs) - {d} && |dirs| == |old(dirs)| - 1
    {
      dirs := dirs - {d};
    }

    method RemoveAll(obsolete: seq<string>, stuck: set<string>) returns (removed: nat)
      requires NoDuplicates(obsolete) && Elements(obsolete) <= dirs
      modifies `dirs
      ensures dirs == old(dirs) - (Elements(obsolete) - stuck)
      ensures removed == |old(dirs)| - |dirs|
    {
      removed := 0;
      var k := 0;
      ghost var seen: set<string> := {};
      while k < |obsolete|
        invariant 0 <= k <= |obsolete|
        invariant seen == Elements(obsolete[..k])
        invariant dirs == old(dirs) - (seen - stuck)
        invariant removed == |old(dirs)| - |dirs|
      {
        var d := obsolete[k];
        NextElement(obsolete, k);
        RemoveOne(old(dirs), seen, d, stuck);
        seen := seen + {d};
        if d !in stuck {
          RemoveDirectory(d);
          removed := removed + 1;
        }
        k := k + 1;
      }
      assert obsolete[..k] == obsolete;
    }
  }

  lemma NextElement(xs: seq<string>, k: nat)
    requires NoDuplicates(xs) && k < |xs|
    ensures xs[k] !in Elements(xs[..k]) && xs[k] in Elements(xs)
    ensures Elements(xs[..k + 1]) == Elements(xs[..k]) + {xs[k]}
  {
    assert xs[..k + 1] == xs[..k] + [xs[k]];
    Appended(xs[..k], xs[k]);
  }

  lemma RemoveOne(all: set<string>, seen: set<string>, d: string, stuck: set<string>)
    requires d in all && d !in seen
    ensures d in all - (seen - stuck)
    ensures all - ((seen + {d}) - stuck) == (all - (seen - stuck)) - (if d in stuck then {} else {d})
  {
  }

  lemma KeptAndStuck(all: set<string>, kept: set<string>, rest: set<string>, stuck: set<string>)
    requires kept !! rest && kept + rest == all
    ensures kept + all * stuck == all - (rest - stuck)
  {
  }

  /** Sort newest first and cut after `n`. */
  method OldestFrom(listing: seq<string>, n: nat) returns (rest: seq<string>)
    requires NoDuplicates(listing) && n <= |listing|
    ensures NoDuplicates(rest)
    ensures Elements(rest) == Elements(listing) - Newest(Elements(listing), n)
  {
    var ascending := SortIds(listing);
    DistinctCount(listing);
    SortSetIsSorted(Elements(listing));
    var newestFirst := Reverse(ascending);
    rest := newestFirst[n..];
    ReverseSame(ascending);
    IndexHoldsNewest(Elements(listing), n);
    SplitElements(newestFirst, n);
  }

  lemma SplitElements(xs: seq<string>, n: nat)
    requires NoDuplicates(xs) && n <= |xs|
    ensures Elements(xs[..n]) !! Elements(xs[n..]) && Elements(xs[..n]) + Elements(xs[n..]) == Elements(xs)
    ensures NoDuplicates(xs[n..])
  {
    assert xs == xs[..n] + xs[n..];
    forall x | x in xs[..n] ensures x !in xs[n..] {
    }
  }
}
