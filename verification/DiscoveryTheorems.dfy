/** Graph-theoretic meaning of the planner: what is invalidated, ordered, left over and admitted. */
module DiscoveryTheorems {
  import opened Wrappers
  import opened Collections
  import opened Ordering
  import opened Discovery

  // ---------- invalidation is a least fixed point ----------

  /** A runnable module that waits for a non-reserved one. */
  ghost predicate Waits(byId: Index, m: string, d: string) {
    m in Runnable(byId) && d in AfterOf(byId, m) && d !in RESERVED_MODULE_IDS
  }

  /** A finite `after` path through runnable modules to one that is missing, disabled or invalid. */
  ghost predicate DoomPath(byId: Index, p: seq<string>) {
    && |p| >= 2 && p[|p| - 1] !in Runnable(byId)
    && forall i :: 0 <= i < |p| - 1 ==> Waits(byId, p[i], p[i + 1])
  }

  ghost predicate Doomed(byId: Index, m: string) {
    exists p :: DoomPath(byId, p) && p[0] == m
  }

  lemma DoomCons(byId: Index, m: string, p: seq<string>)
    requires DoomPath(byId, p) && Waits(byId, m, p[0])
    ensures DoomPath(byId, [m] + p)
  {
    var q := [m] + p;
    forall i | 0 <= i < |q| - 1 ensures Waits(byId, q[i], q[i + 1]) {
      if i > 0 {
        assert q[i] == p[i - 1] && q[i + 1] == p[(i - 1) + 1];
      }
    }
  }

  lemma NewlyInvalidIsDoomed(byId: Index, invalid: map<string, Reason>, m: string)
    requires m in NewlyInvalid(byId, invalid) && forall x :: x in invalid ==> Doomed(byId, x)
    ensures m in Runnable(byId) && Doomed(byId, m)
  {
    FirstBlockageExact(byId, invalid.Keys, AfterOf(byId, m));
    var d :| d in AfterOf(byId, m) && Blockage(byId, invalid.Keys, d).Some?;
    assert Waits(byId, m, d);
    if d in Runnable(byId) {
      assert Doomed(byId, d);
      var p :| DoomPath(byId, p) && p[0] == d;
      DoomCons(byId, m, p);
      assert ([m] + p)[0] == m;
    } else {
      assert DoomPath(byId, [m, d]) && [m, d][0] == m;
    }
  }

  lemma {:induction false} InvalidateSound(byId: Index, invalid: map<string, Reason>)
    requires forall m :: m in invalid ==> m in Runnable(byId) && Doomed(byId, m)
    ensures forall m :: m in Invalidate(byId, invalid) ==> m in Runnable(byId) && Doomed(byId, m)
    decreases |Runnable(byId) - invalid.Keys|
  {
    var newly := NewlyInvalid(byId, invalid);
    if newly != map[] {
      forall m | m in newly ensures m in Runnable(byId) && Doomed(byId, m) {
        NewlyInvalidIsDoomed(byId, invalid, m);
      }
      NewlyShrinks(byId, invalid);
      InvalidateSound(byId, invalid + newly);
    }
  }

  lemma {:induction false} InvalidateStops(byId: Index, invalid: map<string, Reason>)
    ensures NewlyInvalid(byId, Invalidate(byId, invalid)) == map[]
    decreases |Runnable(byId) - invalid.Keys|
  {
    if NewlyInvalid(byId, invalid) != map[] {
      NewlyShrinks(byId, invalid);
      InvalidateStops(byId, invalid + NewlyInvalid(byId, invalid));
    }
  }

  lemma {:induction false} DoomedIsMarked(byId: Index, invalid: map<string, Reason>, p: seq<string>)
    requires NewlyInvalid(byId, invalid) == map[] && DoomPath(byId, p)
    ensures p[0] in invalid
    decreases |p|
  {
    var m, d := p[0], p[1];
    if |p| > 2 {
      forall i | 0 <= i < |p[1..]| - 1 ensures Waits(byId, p[1..][i], p[1..][i + 1]) {
        assert p[1..][i] == p[i + 1] && p[1..][i + 1] == p[(i + 1) + 1];
      }
      DoomedIsMarked(byId, invalid, p[1..]);
    }
    assert Waits(byId, p[0], p[0 + 1]);
    assert Blockage(byId, invalid.Keys, d).Some?;
    FirstBlockageExact(byId, invalid.Keys, AfterOf(byId, m));
    assert m !in NewlyInvalid(byId, invalid);
  }

  /**
   The invalidation loop marks exactly the runnable modules with a finite `after` path to
   a missing, disabled or invalid module, reserved ids excepted.
   */
  lemma {:induction false} InvalidationExact(byId: Index, m: string)
    ensures m in Invalidate(byId, map[]) <==> m in Runnable(byId) && Doomed(byId, m)
  {
    InvalidateSound(byId, map[]);
    InvalidateStops(byId, map[]);
    if Doomed(byId, m) {
      var p :| DoomPath(byId, p) && p[0] == m;
      DoomedIsMarked(byId, Invalidate(byId, map[]), p);
    }
  }

  // ---------- Kahn's order is the least topological order ----------

  /** Two listings are the same from `k` on, or the first difference is in favour of the first. */
  ghost predicate NoLater(s: seq<string>, t: seq<string>, k: nat) {
    s == t || exists j :: k <= j < |s| && j < |t| && s[..j] == t[..j] && s[j] != t[j] && Precedes(s[j], t[j])
  }

  /** Kahn emits the least ready node at every step. */
  lemma {:induction false} KahnPicksMin(g: Graph, done: seq<string>, i: nat)
    requires Topological(g, done) && |done| <= i < |Kahn(g, done)|
    ensures IsMin(Ready(g, Elements(Kahn(g, done)[..i])), Kahn(g, done)[i])
    decreases |g.Keys - Elements(done)|
  {
    var ready := Ready(g, Elements(done));
    if ready != {} {
      KahnShrinks(g, done);
      ReadyExtends(g, done, MinOf(ready));
      var next := done + [MinOf(ready)];
      KahnEmits(g, next);
      if i > |done| {
        KahnPicksMin(g, next, i);
      } else {
        assert next <= Kahn(g, done);
        assert Kahn(g, done)[..i] == done;
      }
    }
  }

  lemma {:induction false} KahnBelow(g: Graph, t: seq<string>, k: nat)
    requires var s := Kahn(g, []); |s| == |t| && k <= |s| && s[..k] == t[..k]
    requires Topological(g, t)
    ensures NoLater(Kahn(g, []), t, k)
    decreases |t| - k
  {
    var s := Kahn(g, []);
    if k < |s| {
      KahnPicksMin(g, [], k);
      if s[k] == t[k] {
        assert s[..k + 1] == s[..k] + [s[k]] && t[..k + 1] == t[..k] + [t[k]];
        KahnBelow(g, t, k + 1);
      } else {
        forall j | 0 <= j < k ensures t[..k][j] != t[k] {
          assert t[j] != t[k];
        }
        assert t[k] in Ready(g, Elements(s[..k]));
        LeqExact(s[k], t[k]);
      }
    } else {
      assert s == s[..k] && t == t[..k];
    }
  }

  /** The emitted order is topological and lexicographically least among all topological orders of its nodes. */
  lemma {:induction false} KahnLeast(g: Graph, t: seq<string>)
    requires Topological(g, t) && Elements(t) == Elements(Kahn(g, []))
    ensures Topological(g, Kahn(g, [])) && NoLater(Kahn(g, []), t, 0)
  {
    KahnEmits(g, []);
    var s := Kahn(g, []);
    DistinctCount(s);
    DistinctCount(t);
    KahnBelow(g, t, 0);
  }

  // ---------- what Kahn leaves over ----------

  ghost predicate Walk(g: Graph, w: seq<string>) {
    && w != [] && (forall i :: 0 <= i < |w| ==> w[i] in g)
    && forall i :: 0 <= i < |w| - 1 ==> w[i + 1] in g[w[i]]
  }

  /** Some walk from `m` visits a node twice. */
  ghost predicate ReachesCycle(g: Graph, m: string) {
    exists w :: Walk(g, w) && w[0] == m && !NoDuplicates(w)
  }

  ghost predicate Closed(g: Graph) {
    forall m :: m in g ==> g[m] <= g.Keys
  }

  lemma {:induction false} WalkDescends(g: Graph, s: seq<string>, w: seq<string>, j: nat) returns (at: nat)
    requires Topological(g, s) && Walk(g, w) && w[0] in Elements(s) && j < |w|
    ensures at < |s| && s[at] == w[j]
    ensures forall i :: 0 <= i < j ==> w[i] != w[j]
    ensures forall i :: 0 <= i <= j ==> w[i] !in Elements(s[..at])
    decreases j
  {
    if j == 0 {
      at :| 0 <= at < |s| && s[at] == w[0];
    } else {
      var before := WalkDescends(g, s, w, j - 1);
      assert w[(j - 1) + 1] in g[w[j - 1]];
      assert w[j] in Elements(s[..before]);
      at :| 0 <= at < before && s[..before][at] == w[j];
      assert s[..at] == s[..before][..at];
      forall i | 0 <= i <= j ensures w[i] !in Elements(s[..at]) {
        if i < j {
          assert w[i] !in Elements(s[..before]);
          forall k | 0 <= k < at ensures s[..at][k] != w[i] {
            assert s[..before][k] in Elements(s[..before]);
          }
        } else {
          forall k | 0 <= k < at ensures s[..at][k] != w[j] {
            assert s[k] != s[at];
          }
        }
      }
    }
  }

  lemma EmittedIsAcyclic(g: Graph, s: seq<string>, m: string)
    requires Topological(g, s) && m in Elements(s)
    ensures !ReachesCycle(g, m)
  {
    forall w | Walk(g, w) && w[0] == m ensures NoDuplicates(w) {
      forall i, j | 0 <= i < j < |w| ensures w[i] != w[j] {
        var at := WalkDescends(g, s, w, j);
      }
    }
  }

  /** From a leftover node one can walk inside the leftovers for ever. */
  lemma {:induction false} LongWalk(g: Graph, left: set<string>, m: string, n: nat) returns (w: seq<string>)
    requires left <= g.Keys && m in left && forall x :: x in left ==> g[x] * left != {}
    ensures |w| == n + 1 && Walk(g, w) && w[0] == m && Elements(w) <= left
    decreases n
  {
    if n == 0 {
      w := [m];
    } else {
      var d :| d in g[m] && d in left;
      var rest := LongWalk(g, left, d, n - 1);
      w := [m] + rest;
      forall i | 0 <= i < |w| ensures w[i] in left && w[i] in g {
        assert i > 0 ==> w[i] == rest[i - 1] && rest[i - 1] in Elements(rest);
      }
      forall i | 0 <= i < |w| - 1 ensures w[i + 1] in g[w[i]] {
        assert i > 0 ==> w[i] == rest[i - 1] && w[i + 1] == rest[i];
      }
    }
  }

  lemma {:induction false} LeftoverReachesCycle(g: Graph, m: string)
    requires Closed(g) && m in g && m !in Elements(Kahn(g, []))
    ensures ReachesCycle(g, m)
  {
    KahnEmits(g, []);
    var done := Elements(Kahn(g, []));
    var left := g.Keys - done;
    forall x | x in left ensures g[x] * left != {} {
      assert x !in Ready(g, done);
      var d :| d in g[x] && d !in done;
      assert d in g[x] * left;
    }
    var w := LongWalk(g, left, m, |left|);
    if NoDuplicates(w) {
      DistinctCount(w);
      SubsetSize(Elements(w), left);
    }
  }

  /** The modules Kahn leaves over are exactly those that can reach a cycle. */
  lemma {:induction false} LeftoversExact(g: Graph, m: string)
    requires Closed(g) && m in g
    ensures m !in Elements(Kahn(g, [])) <==> ReachesCycle(g, m)
  {
    KahnEmits(g, []);
    if m in Elements(Kahn(g, [])) {
      EmittedIsAcyclic(g, Kahn(g, []), m);
    } else {
      LeftoverReachesCycle(g, m);
    }
  }

  /** Being a member of a cycle, which is what the published message says. */
  ghost predicate OnCycle(g: Graph, m: string) {
    exists w :: Walk(g, w) && |w| >= 2 && w[0] == m && w[|w| - 1] == m
  }

  /** A module behind a cycle is left over and reported although it is part of no cycle. */
  lemma {:induction false} LeftoverNeedNotBeOnCycle(g: Graph, a: string, b: string, c: string)
    requires a != b && b != c && a != c && g == map[a := {b}, b := {a}, c := {a}]
    ensures c !in Elements(Kahn(g, [])) && !OnCycle(g, c)
  {
    var w := [c, a, b, a];
    assert Walk(g, w) && w[1] == w[3];
    LeftoversExact(g, c);
    forall v | Walk(g, v) && |v| >= 2 ensures v[|v| - 1] != c {
      assert v[(|v| - 2) + 1] in g[v[|v| - 2]];
    }
  }

  // ---------- the whole result ----------

  lemma EdgesClosed(byId: Index, invalid: set<string>)
    ensures Closed(Edges(byId, invalid))
  {}

  /** The scan order is irrelevant: permuted candidates give the same result, reasons included. */
  lemma {:induction false} OrderIsCanonical(xs: seq<Module>, ys: seq<Module>)
    requires Scanned(xs) && Scanned(ys) && multiset(xs) == multiset(ys)
    ensures Order(ById(xs)) == Order(ById(ys))
  {
    ByIdExact(xs);
    ByIdExact(ys);
    SameIndex(xs, ys);
    SameIndex(ys, xs);
    assert ById(xs) == ById(ys);
  }

  lemma {:induction false} SameIndex(xs: seq<Module>, ys: seq<Module>)
    requires Scanned(xs) && Scanned(ys) && multiset(xs) == multiset(ys)
    ensures forall m :: m in ById(xs) ==> m in ById(ys) && ById(ys)[m] == ById(xs)[m]
  {
    ByIdExact(xs);
    ByIdExact(ys);
    forall m | m in ById(xs) ensures m in ById(ys) && ById(ys)[m] == ById(xs)[m] {
      var i :| 0 <= i < |xs| && xs[i] == ById(xs)[m];
      assert xs[i] in multiset(xs);
      assert xs[i] in ys;
    }
  }

  /** The two listings behind the result: disjoint, without repetition, and together complete. */
  lemma Listings(byId: Index)
    ensures var ids, rest := Prefix(byId), Trailing(byId);
            && NoDuplicates(ids) && NoDuplicates(rest) && Elements(ids) <= Runnable(byId)
            && Elements(rest) == byId.Keys - Elements(ids) && |ids| + |rest| == |byId|
            && (forall i :: 0 <= i < |ids| ==> ids[i] in byId && byId[ids[i]].state.Discovered?)
            && (forall i :: 0 <= i < |rest| ==> rest[i] in byId && rest[i] !in Elements(ids))
  {
    var g := Edges(byId, Invalidate(byId, map[]).Keys);
    var ids, rest := Prefix(byId), Trailing(byId);
    KahnEmits(g, []);
    SortSetIsSorted(byId.Keys - Elements(ids));
    DistinctCount(ids);
    assert Elements(ids) <= byId.Keys;
    assert |byId.Keys - Elements(ids)| == |byId.Keys| - |Elements(ids)|;
    ListedStates(byId, ids, rest);
  }

  lemma ListedStates(byId: Index, ids: seq<string>, rest: seq<string>)
    requires Elements(ids) <= Runnable(byId) && Elements(rest) == byId.Keys - Elements(ids)
    ensures forall i :: 0 <= i < |ids| ==> ids[i] in byId && byId[ids[i]].state.Discovered?
    ensures forall i :: 0 <= i < |rest| ==> rest[i] in byId && rest[i] !in Elements(ids)
  {
    forall i | 0 <= i < |ids| ensures ids[i] in byId && byId[ids[i]].state.Discovered? {
      assert ids[i] in Elements(ids);
    }
    forall i | 0 <= i < |rest| ensures rest[i] in byId && rest[i] !in Elements(ids) {
      assert rest[i] in Elements(rest);
    }
  }

  /** A module outside the emitted order never stays runnable. */
  lemma {:induction false} TrailingIsNotRunnable(byId: Index, m: string)
    requires m in byId && m !in Elements(Prefix(byId))
    ensures var f := Final(byId, Invalidate(byId, map[]), Stuck(byId), m);
            !f.state.Discovered? && f.manifest == byId[m].manifest && f.id == byId[m].id
  {
    var invalid := Invalidate(byId, map[]);
    if m in Runnable(byId) && m !in invalid {
      assert m in Stuck(byId);
    }
  }

  lemma {:induction false} OrderListed(byId: Index)
    ensures var out, ids, rest := Order(byId), Prefix(byId), Trailing(byId);
            && |out| == |ids| + |rest| == |byId|
            && (forall i :: 0 <= i < |ids| ==> ids[i] in byId && out[i] == byId[ids[i]])
            && (forall i :: 0 <= i < |rest| ==>
                  rest[i] in byId && out[|ids| + i] == Final(byId, Invalidate(byId, map[]), Stuck(byId), rest[i]))
  {
    Listings(byId);
    var ids, rest := Prefix(byId), Trailing(byId);
    TrailingIsIndexed(byId);
    PrefixIsIndexed(byId);
    JoinedAt(Pick(byId, ids), Finals(byId, Invalidate(byId, map[]), Stuck(byId), rest));
  }

  lemma JoinedAt<T>(a: seq<T>, b: seq<T>)
    ensures |a + b| == |a| + |b|
    ensures forall i :: 0 <= i < |a| ==> (a + b)[i] == a[i]
    ensures forall i :: 0 <= i < |b| ==> (a + b)[|a| + i] == b[i]
  {
  }

  /** The result: first the ordered runnable modules as they were scanned, then the rest, none of them runnable. */
  lemma OrderShape(byId: Index)
    requires WellFormed(byId)
    ensures var out, ids := Order(byId), Prefix(byId);
            && |ids| <= |out| == |byId|
            && (forall i :: 0 <= i < |ids| ==> ids[i] in byId && out[i] == byId[ids[i]] && out[i].state.Discovered?)
            && (forall i :: |ids| <= i < |out| ==> !out[i].state.Discovered?)
            && (forall i :: 0 <= i < |out| ==> out[i].id in byId && out[i].manifest == byId[out[i].id].manifest)
  {
    OrderListed(byId);
    Listings(byId);
    var out, ids, rest := Order(byId), Prefix(byId), Trailing(byId);
    forall i | |ids| <= i < |out|
      ensures !out[i].state.Discovered? && out[i].id in byId && out[i].manifest == byId[out[i].id].manifest
    {
      var k := i - |ids|;
      assert out[|ids| + k] == Final(byId, Invalidate(byId, map[]), Stuck(byId), rest[k]);
      TrailingIsNotRunnable(byId, rest[k]);
    }
  }

  ghost function IdAt(byId: Index, i: nat): string
    requires i < |Prefix(byId)| + |Trailing(byId)|
  {
    if i < |Prefix(byId)| then Prefix(byId)[i] else Trailing(byId)[i - |Prefix(byId)|]
  }

  lemma IdsInOrder(byId: Index, i: nat)
    requires WellFormed(byId) && i < |Order(byId)|
    ensures |Order(byId)| == |Prefix(byId)| + |Trailing(byId)|
    ensures IdAt(byId, i) in byId && Order(byId)[i].id == IdAt(byId, i)
  {
    OrderListed(byId);
    Listings(byId);
    var out, ids, rest := Order(byId), Prefix(byId), Trailing(byId);
    if i >= |ids| {
      var k := i - |ids|;
      assert out[|ids| + k] == Final(byId, Invalidate(byId, map[]), Stuck(byId), rest[k]);
      TrailingIsNotRunnable(byId, rest[k]);
    }
  }

  lemma IdsDistinct(byId: Index, i: nat, j: nat)
    requires i < j < |Prefix(byId)| + |Trailing(byId)|
    ensures IdAt(byId, i) != IdAt(byId, j)
  {
    Listings(byId);
    assert i < |Prefix(byId)| ==> Prefix(byId)[i] in Elements(Prefix(byId));
  }

  /** Where a candidate stands. */
  lemma PlaceOf(byId: Index, m: string) returns (i: nat)
    requires m in byId
    ensures i < |Prefix(byId)| + |Trailing(byId)| && IdAt(byId, i) == m
  {
    Listings(byId);
    var ids, rest := Prefix(byId), Trailing(byId);
    if m in Elements(ids) {
      i :| 0 <= i < |ids| && ids[i] == m;
    } else {
      assert m in Elements(rest);
      var k :| 0 <= k < |rest| && rest[k] == m;
      i := |ids| + k;
    }
  }

  /** Each candidate is reported exactly once. */
  lemma OrderIsComplete(byId: Index, m: string)
    requires WellFormed(byId)
    ensures m in byId <==> exists i :: 0 <= i < |Order(byId)| && Order(byId)[i].id == m
    ensures forall i, j :: 0 <= i < j < |Order(byId)| ==> Order(byId)[i].id != Order(byId)[j].id
  {
    var out := Order(byId);
    OrderListed(byId);
    forall i | 0 <= i < |out| ensures out[i].id in byId {
      IdsInOrder(byId, i);
    }
    forall i, j | 0 <= i < j < |out| ensures out[i].id != out[j].id {
      IdsInOrder(byId, i);
      IdsInOrder(byId, j);
      IdsDistinct(byId, i, j);
    }
    if m in byId {
      var i := PlaceOf(byId, m);
      IdsInOrder(byId, i);
      assert out[i].id == m;
    }
  }

  /** Why each module is where it is: ordered, doomed, or able to reach a cycle. */
  lemma {:induction false} Verdicts(byId: Index, m: string)
    requires m in byId
    ensures var g := Edges(byId, Invalidate(byId, map[]).Keys);
            && (m in Elements(Prefix(byId)) <==> m in Runnable(byId) && !Doomed(byId, m) && !ReachesCycle(g, m))
            && (m in Stuck(byId) <==> m in Runnable(byId) && !Doomed(byId, m) && ReachesCycle(g, m))
  {
    var invalid := Invalidate(byId, map[]);
    var g := Edges(byId, invalid.Keys);
    InvalidationExact(byId, m);
    EdgesClosed(byId, invalid.Keys);
    KahnEmits(g, []);
    if m in g {
      LeftoversExact(g, m);
    }
  }

  // ---------- the capacity cut ----------

  function ApplyCapacity(ordered: seq<Module>, admitted: nat): (r: seq<Module>)
    ensures |r| == |ordered|
    decreases |ordered|
  {
    if ordered == [] then []
    else if !ordered[0].state.Discovered? then [ordered[0]] + ApplyCapacity(ordered[1..], admitted)
    else
      (if admitted + 1 <= MAX_EXTERNAL_MODULES then [ordered[0]]
       else [Invalidated(ordered[0], OverCapacity(admitted + 1))]) + ApplyCapacity(ordered[1..], admitted + 1)
  }

  /** On a list whose runnable modules form a prefix, the cut keeps the first eight of them. */
  lemma {:induction false} CapacityKeepsPrefix(ordered: seq<Module>, admitted: nat, n: nat)
    requires n <= |ordered|
    requires forall i :: 0 <= i < |ordered| ==> (ordered[i].state.Discovered? <==> i < n)
    ensures var r := ApplyCapacity(ordered, admitted);
            && (forall i :: 0 <= i < |r| ==> (r[i].state.Discovered? <==> i < n && admitted + i < MAX_EXTERNAL_MODULES))
            && (forall i :: 0 <= i < |r| ==> r[i].id == ordered[i].id && r[i].manifest == ordered[i].manifest)
            && (forall i :: 0 <= i < |r| ==>
                  r[i] == if i < n && admitted + i >= MAX_EXTERNAL_MODULES
                          then Invalidated(ordered[i], OverCapacity(admitted + i + 1)) else ordered[i])
    decreases |ordered|
  {
    if ordered != [] {
      var next := if ordered[0].state.Discovered? then admitted + 1 else admitted;
      var rest := ordered[1..];
      CapacityKeepsPrefix(rest, next, if n == 0 then 0 else n - 1);
      var r, tail := ApplyCapacity(ordered, admitted), ApplyCapacity(rest, next);
      forall i | 1 <= i < |r| ensures r[i] == tail[i - 1] && ordered[i] == rest[i - 1] {}
    }
  }

  /**
   After the cut at most eight modules stay runnable, and every non-reserved dependency
   of an admitted module is itself admitted and placed earlier.
   */
  lemma CapacityCutIsClosed(byId: Index)
    requires WellFormed(byId)
    ensures var r := ApplyCapacity(Order(byId), 0);
            && (forall i :: 0 <= i < |r| && r[i].state.Discovered? ==> i < MAX_EXTERNAL_MODULES && r[i].manifest.Some?)
            && (forall i, d ::
                  0 <= i < |r| && r[i].state.Discovered? && d in r[i].manifest.value.after
                  && d !in RESERVED_MODULE_IDS ==>
                  exists j :: 0 <= j < i && r[j].id == d && r[j].state.Discovered?)
  {
    OrderShape(byId);
    var out, ids := Order(byId), Prefix(byId);
    CapacityKeepsPrefix(out, 0, |ids|);
    var r := ApplyCapacity(out, 0);
    forall i, d | 0 <= i < |r| && r[i].state.Discovered? && d in r[i].manifest.value.after && d !in RESERVED_MODULE_IDS
      ensures exists j :: 0 <= j < i && r[j].id == d && r[j].state.Discovered?
    {
      DependencyIsEarlier(byId, i, d);
      var j :| 0 <= j < i && ids[j] == d;
      assert r[j].id == d;
    }
  }

  lemma DependencyIsEarlier(byId: Index, i: nat, d: string)
    requires WellFormed(byId) && i < |Prefix(byId)| && d !in RESERVED_MODULE_IDS
    requires Prefix(byId)[i] in byId && d in AfterOf(byId, Prefix(byId)[i])
    ensures exists j :: 0 <= j < i && Prefix(byId)[j] == d
  {
    var invalid := Invalidate(byId, map[]);
    var g := Edges(byId, invalid.Keys);
    var ids := Prefix(byId);
    KahnEmits(g, []);
    var m := ids[i];
    assert m in g;
    InvalidateStops(byId, map[]);
    FirstBlockageExact(byId, invalid.Keys, AfterOf(byId, m));
    assert m !in NewlyInvalid(byId, invalid);
    assert Blockage(byId, invalid.Keys, d).None?;
    assert d in g[m];
    assert d in Elements(ids[..i]);
    var j :| 0 <= j < |ids[..i]| && ids[..i][j] == d;
    assert ids[j] == d;
  }
}
