/** The reasons that discovery reports, module by module (src/EdgeWARN/ctam/discovery.py). */
module DiscoveryReasons {
  import opened Wrappers
  import opened Collections
  import opened Ordering
  import opened Discovery
  import opened DiscoveryTheorems

  // ---------- blocked modules ----------

  /** What is wrong with one dependency, when that can be told from the scan alone. */
  function Direct(byId: Index, dependency: string): Option<Reason> {
    if dependency in RESERVED_MODULE_IDS then None
    else if dependency !in byId then Some(MissingDependency(dependency))
    else
      match byId[dependency].state
      case SkippedDisabled => Some(DisabledDependency(dependency))
      case Invalid => Some(InvalidDependency(dependency))
      case Discovered => None
  }

  /** The reason names a dependency of the module and says what is wrong with it. */
  ghost predicate IsTrue(byId: Index, m: string, reason: Reason) {
    m in byId &&
    match reason
    case MissingDependency(d) => d in AfterOf(byId, m) && Direct(byId, d) == Some(reason)
    case DisabledDependency(d) => d in AfterOf(byId, m) && Direct(byId, d) == Some(reason)
    case InvalidDependency(d) =>
      d in AfterOf(byId, m) && (Direct(byId, d) == Some(reason) || (d in Runnable(byId) && Doomed(byId, d)))
    case _ => false
  }

  lemma {:induction false} FirstBlockageTrue(byId: Index, invalid: set<string>, m: string, after: seq<string>)
    requires m in byId && forall d :: d in after ==> d in AfterOf(byId, m)
    requires forall x :: x in invalid ==> x in Runnable(byId) && Doomed(byId, x)
    ensures FirstBlockage(byId, invalid, after).Some? ==> IsTrue(byId, m, FirstBlockage(byId, invalid, after).value)
    decreases |after|
  {
    if after != [] {
      FirstBlockageTrue(byId, invalid, m, after[1..]);
    }
  }

  /** Every reason that the invalidation loop records is true. */
  lemma {:induction false} ReasonsTrue(byId: Index, invalid: map<string, Reason>)
    requires forall m :: m in invalid ==> m in Runnable(byId) && Doomed(byId, m) && IsTrue(byId, m, invalid[m])
    ensures forall m :: m in Invalidate(byId, invalid) ==> IsTrue(byId, m, Invalidate(byId, invalid)[m])
    decreases |Runnable(byId) - invalid.Keys|
  {
    var newly := NewlyInvalid(byId, invalid);
    if newly != map[] {
      forall m | m in newly ensures m in Runnable(byId) && Doomed(byId, m) && IsTrue(byId, m, newly[m]) {
        NewlyInvalidIsDoomed(byId, invalid, m);
        FirstBlockageTrue(byId, invalid.Keys, m, AfterOf(byId, m));
      }
      NewlyShrinks(byId, invalid);
      ReasonsTrue(byId, invalid + newly);
    }
  }

  lemma {:induction false} FirstDirect(byId: Index, after: seq<string>, k: nat)
    requires k < |after| && Direct(byId, after[k]).Some?
    requires forall j :: 0 <= j < k ==> Direct(byId, after[j]).None?
    ensures FirstBlockage(byId, {}, after) == Direct(byId, after[k])
    decreases |after|
  {
    if k > 0 {
      assert Direct(byId, after[0]).None?;
      FirstDirect(byId, after[1..], k - 1);
    }
  }

  lemma {:induction false} InvalidateKeeps(byId: Index, invalid: map<string, Reason>, m: string)
    requires m in invalid
    ensures m in Invalidate(byId, invalid) && Invalidate(byId, invalid)[m] == invalid[m]
    decreases |Runnable(byId) - invalid.Keys|
  {
    var newly := NewlyInvalid(byId, invalid);
    if newly != map[] {
      NewlyShrinks(byId, invalid);
      InvalidateKeeps(byId, invalid + newly, m);
    }
  }

  /** A module with dependencies that the scan alone rules out reports the first of them that its manifest lists. */
  lemma {:induction false} FirstDirectIsReported(byId: Index, m: string, k: nat)
    requires m in Runnable(byId) && k < |AfterOf(byId, m)| && Direct(byId, AfterOf(byId, m)[k]).Some?
    requires forall j :: 0 <= j < k ==> Direct(byId, AfterOf(byId, m)[j]).None?
    ensures m in Invalidate(byId, map[])
    ensures Some(Invalidate(byId, map[])[m]) == Direct(byId, AfterOf(byId, m)[k])
  {
    FirstDirect(byId, AfterOf(byId, m), k);
    var newly := NewlyInvalid(byId, map[]);
    var none: map<string, Reason> := map[];
    assert none.Keys == {};
    assert m in newly;
    NewlyShrinks(byId, map[]);
    assert map[] + newly == newly;
    InvalidateKeeps(byId, newly, m);
  }

  // ---------- the dependency graph ----------

  /** The graph that is ordered: the runnable modules that are not doomed, with their dependencies among themselves. */
  lemma {:induction false} EdgesExact(byId: Index, m: string)
    ensures var g := Edges(byId, Invalidate(byId, map[]).Keys);
            && (m in g <==> m in Runnable(byId) && !Doomed(byId, m))
            && (m in g ==> forall d :: d in g[m] <==> d in AfterOf(byId, m) && d in g)
  {
    InvalidationExact(byId, m);
  }

  lemma WalksOn(g: Graph, w: seq<string>)
    requires Walk(g, w)
    ensures |w| > 1 ==> g[w[0]] != {}
  {
    if |w| > 1 {
      assert w[0 + 1] in g[w[0]];
    }
  }

  /** The built-in adapter is a legal dependency that never blocks: a module that depends on nothing else is ordered. */
  lemma BuiltInNeverBlocks(byId: Index, m: string)
    requires m in Runnable(byId) && "stormprob" !in byId
    requires forall d :: d in AfterOf(byId, m) ==> d == "stormprob"
    ensures m in Elements(Prefix(byId))
  {
    var g := Edges(byId, Invalidate(byId, map[]).Keys);
    Verdicts(byId, m);
    EdgesExact(byId, m);
    forall p | DoomPath(byId, p) ensures p[0] != m {
      assert Waits(byId, p[0], p[0 + 1]);
    }
    if m in g {
      assert g[m] == {};
      forall w | Walk(g, w) && w[0] == m ensures NoDuplicates(w) {
        WalksOn(g, w);
      }
    }
  }

  // ---------- the whole report ----------

  /** What is reported of a candidate that is not in the execution order. */
  ghost predicate Explained(byId: Index, m: string, reported: Module) {
    && m in byId
    && var g := Edges(byId, Invalidate(byId, map[]).Keys);
       if m !in Runnable(byId) then reported == byId[m]
       else
         && reported.reason.Some? && reported == byId[m].(state := Invalid, reason := reported.reason)
         && if Doomed(byId, m) then IsTrue(byId, m, reported.reason.value)
            else
              && reported.reason.value.InCycle?
              && Sorted(reported.reason.value.members) && NoDuplicates(reported.reason.value.members)
              && forall x :: x in reported.reason.value.members <==> x in g && ReachesCycle(g, x)
  }

  lemma {:induction false} FinalExplained(byId: Index, m: string)
    requires m in byId && m !in Elements(Prefix(byId))
    ensures Explained(byId, m, Final(byId, Invalidate(byId, map[]), Stuck(byId), m))
  {
    var invalid, stuck := Invalidate(byId, map[]), Stuck(byId);
    var g := Edges(byId, invalid.Keys);
    Verdicts(byId, m);
    InvalidationExact(byId, m);
    ReasonsTrue(byId, map[]);
    SortSetIsSorted(stuck);
    EdgesClosed(byId, invalid.Keys);
    forall x ensures x in SortSet(stuck) <==> x in g && ReachesCycle(g, x) {
      assert x in SortSet(stuck) <==> x in Elements(SortSet(stuck));
      if x in g {
        LeftoversExact(g, x);
      }
    }
  }

  /** The ordered modules come first: eight as scanned, and each further one with its position over the limit. */
  lemma OrderedReport(byId: Index, i: nat)
    requires WellFormed(byId) && i < |Prefix(byId)|
    ensures var r, ids := ApplyCapacity(Order(byId), 0), Prefix(byId);
            && |r| == |byId| && i < |r| && ids[i] in byId
            && r[i] == if i < 8 then byId[ids[i]]
                       else byId[ids[i]].(state := Invalid, reason := Some(OverCapacity(i + 1)))
  {
    OrderShape(byId);
    CapacityKeepsPrefix(Order(byId), 0, |Prefix(byId)|);
  }

  lemma {:induction false} TrailingReport(byId: Index, k: nat)
    requires WellFormed(byId) && k < |Trailing(byId)|
    ensures var r := ApplyCapacity(Order(byId), 0);
            && |r| == |byId| == |Prefix(byId)| + |Trailing(byId)| && Trailing(byId)[k] in byId
            && r[|Prefix(byId)| + k] == Final(byId, Invalidate(byId, map[]), Stuck(byId), Trailing(byId)[k])
  {
    OrderShape(byId);
    OrderListed(byId);
    CapacityKeepsPrefix(Order(byId), 0, |Prefix(byId)|);
  }

  /**
   Behind them comes every other candidate, by id: as it was if it was not runnable, with a true reason if a dependency
   blocks it, and otherwise with the members that can reach a cycle.
   */
  lemma TrailingExplained(byId: Index, k: nat)
    requires WellFormed(byId) && k < |Trailing(byId)|
    ensures Sorted(Trailing(byId)) && Elements(Trailing(byId)) == byId.Keys - Elements(Prefix(byId))
    ensures var r := ApplyCapacity(Order(byId), 0);
            && |r| == |byId| == |Prefix(byId)| + |Trailing(byId)|
            && Explained(byId, Trailing(byId)[k], r[|Prefix(byId)| + k])
  {
    SortSetIsSorted(byId.Keys - Elements(Prefix(byId)));
    TrailingReport(byId, k);
    assert Trailing(byId)[k] in Elements(Trailing(byId));
    FinalExplained(byId, Trailing(byId)[k]);
  }
}
