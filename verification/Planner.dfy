/** The loops of the dependency planner, refining Discovery. */
module Planner {
  import opened Wrappers
  import opened Collections
  import opened Ordering
  import opened Discovery
  import opened DiscoveryTheorems

  method FindBlockage(byId: Index, invalid: map<string, Reason>, after: seq<string>) returns (r: Option<Reason>)
    ensures r == FirstBlockage(byId, invalid.Keys, after)
  {
    var k := 0;
    while k < |after|
      invariant 0 <= k <= |after|
      invariant FirstBlockage(byId, invalid.Keys, after) == FirstBlockage(byId, invalid.Keys, after[k..])
    {
      assert after[k..][0] == after[k] && after[k..][1..] == after[k + 1..];
      r := Blockage(byId, invalid.Keys, after[k]);
      if r.Some? {
        return;
      }
      k := k + 1;
    }
    r := None;
  }

  /** One pass over the runnable modules, in any dictionary order. */
  method InvalidationPass(byId: Index, invalid: map<string, Reason>) returns (newly: map<string, Reason>)
    ensures newly == NewlyInvalid(byId, invalid)
  {
    newly := map[];
    var todo := Runnable(byId);
    while todo != {}
      invariant todo <= Runnable(byId) && newly.Keys <= Runnable(byId) - todo
      invariant forall m :: m in Runnable(byId) - todo ==>
                  && (m in newly <==> m in NewlyInvalid(byId, invalid))
                  && (m in newly ==> newly[m] == NewlyInvalid(byId, invalid)[m])
      decreases |todo|
    {
      var m :| m in todo;
      todo := todo - {m};
      if m !in invalid {
        var reason := FindBlockage(byId, invalid, AfterOf(byId, m));
        if reason.Some? {
          newly := newly[m := reason.value];
        }
      }
    }
  }

  /** The fixed-point loop: it ends because the runnable modules still valid shrink. */
  method InvalidationLoop(byId: Index) returns (invalid: map<string, Reason>)
    ensures invalid == Invalidate(byId, map[])
  {
    invalid := map[];
    while true
      invariant Invalidate(byId, map[]) == Invalidate(byId, invalid)
      decreases |Runnable(byId) - invalid.Keys|
    {
      var newly := InvalidationPass(byId, invalid);
      if newly == map[] {
        break;
      }
      NewlyShrinks(byId, invalid);
      invalid := invalid + newly;
    }
  }

  /** The nodes without dependencies, in any dictionary order. */
  method Sources(g: Graph) returns (ready: seq<string>)
    ensures NoDuplicates(ready) && Elements(ready) == Ready(g, {})
  {
    ready := [];
    var todo := g.Keys;
    while todo != {}
      invariant todo <= g.Keys && NoDuplicates(ready)
      invariant Elements(ready) == Ready(g, {}) - todo
      decreases |todo|
    {
      var m :| m in todo;
      todo := todo - {m};
      if g[m] == {} {
        Appended(ready, m);
        ready := ready + [m];
      }
    }
  }

  /** Discards an emitted node from every dependency set, collecting the sets that become empty. */
  method Discard(before: Graph, m: string) returns (remaining: Graph, newly: seq<string>)
    ensures remaining.Keys == before.Keys
    ensures forall x :: x in before ==> remaining[x] == before[x] - {m}
    ensures NoDuplicates(newly) && Elements(newly) == set x | x in before && before[x] == {m}
  {
    remaining, newly := before, [];
    var todo := before.Keys;
    while todo != {}
      invariant todo <= before.Keys == remaining.Keys && NoDuplicates(newly)
      invariant forall x :: x in before ==> remaining[x] == if x in todo then before[x] else before[x] - {m}
      invariant Elements(newly) == set x | x in before && x !in todo && before[x] == {m}
      decreases |todo|
    {
      var other :| other in todo;
      todo := todo - {other};
      if m in remaining[other] {
        remaining := remaining[other := remaining[other] - {m}];
        if remaining[other] == {} {
          assert before[other] == {m};
          Appended(newly, other);
          newly := newly + [other];
        }
      }
    }
  }

  ghost predicate Left(g: Graph, done: set<string>, remaining: Graph) {
    && remaining.Keys == g.Keys - done
    && forall x :: x in remaining ==> remaining[x] == g[x] - done
  }

  lemma ReadyAfter(g: Graph, done: set<string>, m: string, remaining: Graph, newly: set<string>)
    requires m in Ready(g, done) && Left(g, done, remaining)
    requires newly == set x | x in remaining && x != m && remaining[x] == {m}
    ensures Ready(g, done + {m}) == (Ready(g, done) - {m}) + newly && newly !! Ready(g, done)
  {
    forall x ensures x in Ready(g, done + {m}) <==> x in (Ready(g, done) - {m}) + newly {
      if x in g && x !in done && x != m {
        assert remaining[x] == g[x] - done;
      }
    }
  }

  /** Emits the first ready node and merges the nodes that it made ready. */
  method Emit(g: Graph, ghost ids: seq<string>, ready: seq<string>, remaining: Graph)
    returns (m: string, ready': seq<string>, remaining': Graph)
    requires ready != [] && ready == SortSet(Ready(g, Elements(ids))) && Left(g, Elements(ids), remaining)
    ensures Ready(g, Elements(ids)) != {} && m == MinOf(Ready(g, Elements(ids)))
    ensures Left(g, Elements(ids) + {m}, remaining') && ready' == SortSet(Ready(g, Elements(ids) + {m}))
  {
    ghost var done := Elements(ids);
    SortSetIsSorted(Ready(g, done));
    m := ready[0];
    assert m in Elements(ready);
    assert ready == [m] + ready[1..];
    var newly;
    remaining', newly := Discard(remaining - {m}, m);
    ReadyAfter(g, done, m, remaining, Elements(newly));
    MergeDistinct(ready[1..], newly, Ready(g, done), m);
    ready' := SortIds(ready[1..] + newly);
  }

  method KahnLoop(g: Graph) returns (ids: seq<string>, remaining: Graph)
    ensures ids == Kahn(g, []) && remaining.Keys == g.Keys - Elements(ids)
  {
    var sources := Sources(g);
    var ready := SortIds(sources);
    ids, remaining := [], g;
    assert Elements(ids) == {};
    while ready != []
      invariant Topological(g, ids) && Left(g, Elements(ids), remaining)
      invariant ready == SortSet(Ready(g, Elements(ids)))
      invariant Kahn(g, []) == Kahn(g, ids)
      decreases |g.Keys - Elements(ids)|
    {
      var m;
      m, ready, remaining := Emit(g, ids, ready, remaining);
      KahnShrinks(g, ids);
      ReadyExtends(g, ids, m);
      Appended(ids, m);
      ids := ids + [m];
    }
  }

  lemma {:induction false} MergeDistinct(rest: seq<string>, newly: seq<string>, was: set<string>, m: string)
    requires was != {} && [m] + rest == SortSet(was) && NoDuplicates(newly) && Elements(newly) !! was
    ensures NoDuplicates(rest + newly) && Elements(rest + newly) == (was - {m}) + Elements(newly)
  {
    SortSetIsSorted(was);
    var all := [m] + rest;
    forall i | 0 <= i < |rest| ensures rest[i] in was && rest[i] != m {
      assert rest[i] == all[i + 1] && all[i + 1] in Elements(all) && all[0] != all[i + 1];
    }
    forall x | x in was && x != m ensures x in rest {
      assert x in Elements(all);
      var i :| 0 <= i < |all| && all[i] == x;
      assert rest[i - 1] == x;
    }
    var r := rest + newly;
    forall i, j | 0 <= i < j < |r| ensures r[i] != r[j] {
      if j < |rest| {
        assert all[i + 1] != all[j + 1];
      } else if i < |rest| {
        assert r[j] in Elements(newly);
      }
    }
  }

  // ---------- the trailing modules ----------

  ghost function Ids(ms: seq<Module>): seq<string> {
    seq(|ms|, i requires 0 <= i < |ms| => ms[i].id)
  }

  /** `trailing.sort(key=id)`: an insertion sort. */
  method InsertModule(ms: seq<Module>, x: Module) returns (r: seq<Module>)
    requires Sorted(Ids(ms)) && NoDuplicates(Ids(ms)) && x.id !in Ids(ms)
    ensures Sorted(Ids(r)) && NoDuplicates(Ids(r)) && Elements(Ids(r)) == Elements(Ids(ms)) + {x.id}
    ensures Elements(r) == Elements(ms) + {x}
  {
    var k := 0;
    while k < |ms| && Leq(ms[k].id, x.id)
      invariant 0 <= k <= |ms|
      invariant forall i :: 0 <= i < k ==> Leq(Ids(ms)[i], x.id)
    {
      k := k + 1;
    }
    r := ms[..k] + [x] + ms[k..];
    ghost var ids := Ids(ms);
    forall i | k <= i < |ids| ensures Leq(x.id, ids[i]) {
      LeqTotal(x.id, ids[k]);
      if i > k {
        LeqTransitive(x.id, ids[k], ids[i]);
      }
    }
    assert Ids(r) == ids[..k] + [x.id] + ids[k..];
    InsertedAt(ids, k, x.id);
    assert ms == ms[..k] + ms[k..];
  }

  lemma {:induction false} InsertedAt(ids: seq<string>, k: nat, x: string)
    requires Sorted(ids) && NoDuplicates(ids) && x !in ids && k <= |ids|
    requires forall i :: 0 <= i < k ==> Leq(ids[i], x)
    requires forall i :: k <= i < |ids| ==> Leq(x, ids[i])
    ensures var r := ids[..k] + [x] + ids[k..]; Sorted(r) && NoDuplicates(r) && Elements(r) == Elements(ids) + {x}
  {
    var r := ids[..k] + [x] + ids[k..];
    forall y ensures y in r <==> y in ids || y == x {
      assert ids == ids[..k] + ids[k..];
    }
    forall i, j | 0 <= i < j < |r| ensures Leq(r[i], r[j]) && r[i] != r[j] {
      if i < k < j {
        assert r[i] == ids[i] && r[j] == ids[j - 1];
      }
    }
  }

  method SortModules(ms: seq<Module>) returns (r: seq<Module>)
    requires NoDuplicates(Ids(ms))
    ensures Ids(r) == SortSet(Elements(Ids(ms))) && Elements(r) == Elements(ms)
  {
    r := [];
    var k := 0;
    while k < |ms|
      invariant 0 <= k <= |ms|
      invariant Sorted(Ids(r)) && NoDuplicates(Ids(r))
      invariant Elements(Ids(r)) == Elements(Ids(ms)[..k]) && Elements(r) == Elements(ms[..k])
    {
      assert ms[k].id !in Ids(r) by {
        assert Ids(ms)[k] == ms[k].id && Ids(ms)[k] !in Ids(ms)[..k];
        assert ms[k].id !in Elements(Ids(r));
      }
      r := InsertModule(r, ms[k]);
      assert Ids(ms)[..k + 1] == Ids(ms)[..k] + [ms[k].id] && ms[..k + 1] == ms[..k] + [ms[k]];
      k := k + 1;
    }
    assert ms[..k] == ms && Ids(ms)[..k] == Ids(ms);
    SortedIsSortSet(Ids(r));
  }

  /** Everything without a place in the order, with its reason. */
  method CollectTrailing(candidates: seq<Module>, ids: seq<string>, invalid: map<string, Reason>, stuck: set<string>,
      members: seq<string>)
    returns (trailing: seq<Module>)
    requires Scanned(candidates) && members == SortSet(stuck)
    ensures NoDuplicates(Ids(trailing)) && Elements(Ids(trailing)) == ById(candidates).Keys - Elements(ids)
    ensures forall m :: m in trailing ==>
              m.id in ById(candidates) && m == Final(ById(candidates), invalid, stuck, m.id)
  {
    ghost var byId := ById(candidates);
    ByIdExact(candidates);
    trailing := [];
    var k := 0;
    while k < |candidates|
      invariant 0 <= k <= |candidates|
      invariant NoDuplicates(Ids(trailing)) && Elements(Ids(trailing)) == Elements(Ids(candidates)[..k]) - Elements(ids)
      invariant forall m :: m in trailing ==> m.id in byId && m == Final(byId, invalid, stuck, m.id)
    {
      var c := candidates[k];
      ghost var was := trailing;
      NextId(candidates, k);
      if c.id !in ids {
        var verdict :=
          if c.id in stuck then Invalidated(c, InCycle(members))
          else if c.id in invalid then Invalidated(c, invalid[c.id])
          else c;
        trailing := trailing + [verdict];
        assert Ids(trailing) == Ids(was) + [c.id];
        Appended(Ids(was), c.id);
      }
      k := k + 1;
    }
    assert Ids(candidates)[..k] == Ids(candidates);
    IndexedIds(candidates);
  }

  lemma NextId(candidates: seq<Module>, k: nat)
    requires Scanned(candidates) && k < |candidates|
    ensures Elements(Ids(candidates)[..k + 1]) == Elements(Ids(candidates)[..k]) + {candidates[k].id}
    ensures candidates[k].id !in Elements(Ids(candidates)[..k])
  {
    assert Ids(candidates)[..k + 1] == Ids(candidates)[..k] + [candidates[k].id];
    Appended(Ids(candidates)[..k], candidates[k].id);
    forall i | 0 <= i < k ensures Ids(candidates)[..k][i] != candidates[k].id {
      assert Ids(candidates)[i] == candidates[i].id;
    }
  }

  lemma {:induction false} IndexedIds(candidates: seq<Module>)
    requires Scanned(candidates)
    ensures Elements(Ids(candidates)) == ById(candidates).Keys
  {
    ByIdExact(candidates);
    var byId := ById(candidates);
    forall m ensures m in Elements(Ids(candidates)) <==> m in byId {
      if m in byId {
        var i :| 0 <= i < |candidates| && candidates[i] == byId[m];
        assert Ids(candidates)[i] == m;
      }
      if m in Elements(Ids(candidates)) {
        var i :| 0 <= i < |candidates| && Ids(candidates)[i] == m;
        assert candidates[i].id in byId;
      }
    }
  }

  // ---------- the planner ----------

  lemma {:induction false} Assembled(byId: Index, head: seq<Module>, trailing: seq<Module>)
    requires |head| == |Prefix(byId)| && Ids(trailing) == Trailing(byId)
    requires forall i :: 0 <= i < |head| ==> Prefix(byId)[i] in byId && head[i] == byId[Prefix(byId)[i]]
    requires forall m :: m in trailing ==> m.id in byId && m == Final(byId, Invalidate(byId, map[]), Stuck(byId), m.id)
    ensures head + trailing == Order(byId)
  {
    PrefixIsIndexed(byId);
    TrailingIsIndexed(byId);
    var rest := Trailing(byId);
    forall i | 0 <= i < |rest| ensures trailing[i] == Final(byId, Invalidate(byId, map[]), Stuck(byId), rest[i]) {
      assert trailing[i] in trailing && Ids(trailing)[i] == trailing[i].id;
    }
    assert head == Pick(byId, Prefix(byId));
    assert trailing == Finals(byId, Invalidate(byId, map[]), Stuck(byId), rest);
  }

  method PickModules(byId: Index, ids: seq<string>) returns (head: seq<Module>)
    requires forall i :: 0 <= i < |ids| ==> ids[i] in byId
    ensures |head| == |ids| && forall i :: 0 <= i < |ids| ==> head[i] == byId[ids[i]]
  {
    head := [];
    var k := 0;
    while k < |ids|
      invariant 0 <= k <= |ids| && |head| == k
      invariant forall i :: 0 <= i < k ==> head[i] == byId[ids[i]]
    {
      head := head + [byId[ids[k]]];
      k := k + 1;
    }
  }

  /** Validates dependencies, orders the runnable modules, and reports every candidate. */
  method Plan(candidates: seq<Module>) returns (ordered: seq<Module>)
    requires Scanned(candidates)
    ensures ordered == Order(ById(candidates))
  {
    var byId := ById(candidates);
    var invalid := InvalidationLoop(byId);
    var ids, remaining := KahnLoop(Edges(byId, invalid.Keys));
    Listings(byId);
    var members := SortedKeys(remaining);
    var trailing := CollectTrailing(candidates, ids, invalid, remaining.Keys, members);
    ghost var collected := trailing;
    trailing := SortModules(trailing);
    forall m | m in trailing ensures m in collected {
      assert m in Elements(trailing);
    }
    var head := PickModules(byId, ids);
    Assembled(byId, head, trailing);
    ordered := head + trailing;
  }

  method SortedKeys(remaining: Graph) returns (members: seq<string>)
    ensures members == SortSet(remaining.Keys)
  {
    var keys: seq<string> := [];
    var todo := remaining.Keys;
    while todo != {}
      invariant todo <= remaining.Keys && NoDuplicates(keys) && Elements(keys) == remaining.Keys - todo
      decreases |todo|
    {
      var m :| m in todo;
      todo := todo - {m};
      Appended(keys, m);
      keys := keys + [m];
    }
    assert Elements(keys) == remaining.Keys;
    members := SortIds(keys);
  }

  lemma Regrouped<T>(a: seq<T>, b: seq<T>)
    ensures b != [] ==> a + b == (a + [b[0]]) + b[1..]
  {
  }

  /** Demotes the runnable modules past the cap. */
  method CutCapacity(ordered: seq<Module>) returns (result: seq<Module>)
    ensures result == ApplyCapacity(ordered, 0)
  {
    result := [];
    var admitted := 0;
    var k := 0;
    while k < |ordered|
      invariant 0 <= k <= |ordered| && 0 <= admitted
      invariant ApplyCapacity(ordered, 0) == result + ApplyCapacity(ordered[k..], admitted)
    {
      var c := ordered[k];
      assert ordered[k..][0] == c && ordered[k..][1..] == ordered[k + 1..];
      var rest := ordered[k..];
      Regrouped(result, ApplyCapacity(rest, admitted));
      if c.state != Discovered {
        result := result + [c];
      } else {
        admitted := admitted + 1;
        result := result + [if admitted <= MAX_EXTERNAL_MODULES then c else Invalidated(c, OverCapacity(admitted))];
      }
      k := k + 1;
    }
  }
}
