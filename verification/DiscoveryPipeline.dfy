/** Discovery as a whole: the two rejections before the planner, and what they make of its result
    (src/EdgeWARN/ctam/discovery.py). `fold` is case folding. */
module DiscoveryPipeline {
  import opened Wrappers
  import opened Collections
  import opened Ordering
  import opened Discovery
  import opened DiscoveryTheorems
  import Planner

  // ---------- case collisions ----------

  /** The ids that fold to `key`. */
  ghost function Group(fold: string -> string, candidates: seq<Module>, key: string): set<string> {
    set c | c in candidates && fold(c.id) == key :: c.id
  }

  ghost function Rivals(fold: string -> string, candidates: seq<Module>, id: string): set<string> {
    Group(fold, candidates, fold(id)) - {id}
  }

  ghost function Judged(fold: string -> string, candidates: seq<Module>, c: Module): Module {
    var rivals := Rivals(fold, candidates, c.id);
    if rivals == {} then c else Invalidated(c, Collides(SortSet(rivals)))
  }

  ghost function RejectCollisions(fold: string -> string, candidates: seq<Module>): (r: seq<Module>)
    ensures |r| == |candidates|
    ensures forall i :: 0 <= i < |r| ==> r[i] == Judged(fold, candidates, candidates[i])
  {
    seq(|candidates|, i requires 0 <= i < |candidates| => Judged(fold, candidates, candidates[i]))
  }

  lemma GroupAppend(fold: string -> string, cs: seq<Module>, c: Module, key: string)
    ensures Group(fold, cs + [c], key) == Group(fold, cs, key) + if fold(c.id) == key then {c.id} else {}
  {
    forall id ensures id in Group(fold, cs + [c], key) <==>
                        id in Group(fold, cs, key) + if fold(c.id) == key then {c.id} else {}
    {
      if id in Group(fold, cs, key) {
        var d :| d in cs && fold(d.id) == key && d.id == id;
        assert d in cs + [c];
      }
      if id in Group(fold, cs + [c], key) {
        var d :| d in cs + [c] && fold(d.id) == key && d.id == id;
        assert d in cs || d == c;
      }
      assert c in cs + [c];
    }
  }

  /** The groups hold every candidate under its folded id, once, and nothing else. */
  ghost predicate Grouped(fold: string -> string, candidates: seq<Module>, groups: map<string, seq<string>>) {
    && (forall c :: c in candidates ==> fold(c.id) in groups)
    && forall key :: key in groups ==>
         NoDuplicates(groups[key]) && Elements(groups[key]) == Group(fold, candidates, key)
  }

  /** `groups.setdefault(folded, []).append(candidate)`. */
  method CollectGroups(fold: string -> string, candidates: seq<Module>) returns (groups: map<string, seq<string>>)
    requires Scanned(candidates)
    ensures Grouped(fold, candidates, groups)
  {
    groups := map[];
    var k := 0;
    while k < |candidates|
      invariant 0 <= k <= |candidates|
      invariant forall key :: key !in groups ==> Group(fold, candidates[..k], key) == {}
      invariant forall key :: key in groups ==>
                  NoDuplicates(groups[key]) && Elements(groups[key]) == Group(fold, candidates[..k], key)
      invariant forall i :: 0 <= i < k ==> fold(candidates[i].id) in groups
    {
      var c := candidates[k];
      var folded := fold(c.id);
      var group := if folded in groups then groups[folded] else [];
      assert candidates[..k + 1] == candidates[..k] + [c];
      forall key ensures Group(fold, candidates[..k + 1], key)
                      == Group(fold, candidates[..k], key) + if folded == key then {c.id} else {}
      {
        GroupAppend(fold, candidates[..k], c, key);
      }
      assert Elements(group) == Group(fold, candidates[..k], folded);
      NewId(fold, candidates, k);
      Appended(group, c.id);
      groups := groups[folded := group + [c.id]];
      k := k + 1;
    }
    assert candidates[..k] == candidates;
  }

  lemma NewId(fold: string -> string, candidates: seq<Module>, k: nat)
    requires Scanned(candidates) && k < |candidates|
    ensures candidates[k].id !in Group(fold, candidates[..k], fold(candidates[k].id))
  {
  }

  /** The other members of a group, sorted. */
  method OthersOf(group: seq<string>, id: string) returns (others: seq<string>)
    requires NoDuplicates(group)
    ensures others == SortSet(Elements(group) - {id})
  {
    var rest: seq<string> := [];
    var k := 0;
    while k < |group|
      invariant 0 <= k <= |group|
      invariant NoDuplicates(rest) && Elements(rest) == Elements(group[..k]) - {id}
    {
      assert group[..k + 1] == group[..k] + [group[k]];
      Appended(group[..k], group[k]);
      assert group[k] !in group[..k];
      if group[k] != id {
        Appended(rest, group[k]);
        rest := rest + [group[k]];
      }
      k := k + 1;
    }
    assert group[..k] == group;
    others := SortIds(rest);
  }

  method RejectCaseCollisions(fold: string -> string, candidates: seq<Module>) returns (result: seq<Module>)
    requires Scanned(candidates)
    ensures result == RejectCollisions(fold, candidates)
  {
    var groups := CollectGroups(fold, candidates);
    result := [];
    var k := 0;
    while k < |candidates|
      invariant 0 <= k <= |candidates| && |result| == k
      invariant forall i :: 0 <= i < k ==> result[i] == Judged(fold, candidates, candidates[i])
    {
      var judged := Judge(fold, candidates, candidates[k], groups);
      result := result + [judged];
      k := k + 1;
    }
  }

  /** The body of the loop over a group: every member is rejected, naming the others, unless it is alone. */
  method Judge(fold: string -> string, candidates: seq<Module>, c: Module, groups: map<string, seq<string>>)
    returns (judged: Module)
    requires c in candidates && Grouped(fold, candidates, groups)
    ensures judged == Judged(fold, candidates, c)
  {
    var group := groups[fold(c.id)];
    assert c.id in Elements(group);
    AloneInGroup(group, c.id);
    if |group| == 1 {
      return c;
    }
    var others := OthersOf(group, c.id);
    return Invalidated(c, Collides(others));
  }

  lemma AloneInGroup(group: seq<string>, id: string)
    requires NoDuplicates(group) && id in Elements(group)
    ensures |group| == 1 <==> Elements(group) - {id} == {}
  {
    if |group| == 1 {
      assert group[0] == id;
    } else {
      var other := if group[0] == id then group[1] else group[0];
      assert other in Elements(group) - {id};
    }
  }

  // ---------- disabled modules ----------

  function Gated(c: Module): Module {
    if c.state.Discovered? && c.manifest.Some? && !c.manifest.value.enabled
    then c.(state := SkippedDisabled, reason := Some(TurnedOff))
    else c
  }

  function RejectDisabledIn(candidates: seq<Module>): (r: seq<Module>)
    ensures |r| == |candidates| && forall i :: 0 <= i < |r| ==> r[i] == Gated(candidates[i])
  {
    seq(|candidates|, i requires 0 <= i < |candidates| => Gated(candidates[i]))
  }

  method RejectDisabled(candidates: seq<Module>) returns (result: seq<Module>)
    requires Scanned(candidates)
    ensures result == RejectDisabledIn(candidates)
  {
    result := [];
    var k := 0;
    while k < |candidates|
      invariant 0 <= k <= |candidates| && |result| == k
      invariant forall i :: 0 <= i < k ==> result[i] == Gated(candidates[i])
    {
      var c := candidates[k];
      if c.state == Discovered && !c.manifest.value.enabled {
        result := result + [c.(state := SkippedDisabled, reason := Some(TurnedOff))];
      } else {
        result := result + [c];
      }
      k := k + 1;
    }
  }

  // ---------- both screens ----------

  /** What the screens make of a candidate: one of several ids that differ only by case is invalid and reports the
      others in order, a parsed module that is switched off is skipped, and any other candidate stays as it was. */
  ghost predicate IsScreened(fold: string -> string, scan: seq<Module>, c: Module, screened: Module) {
    var others := set d | d in scan && fold(d.id) == fold(c.id) && d.id != c.id :: d.id;
    if others != {} then
      && screened.reason.Some? && screened.reason.value.Collides?
      && screened == c.(state := Invalid, reason := screened.reason)
      && Sorted(screened.reason.value.others) && NoDuplicates(screened.reason.value.others)
      && Elements(screened.reason.value.others) == others
    else if c.state.Discovered? && c.manifest.Some? && !c.manifest.value.enabled then
      screened == c.(state := SkippedDisabled, reason := Some(TurnedOff))
    else screened == c
  }

  lemma ScreensExact(fold: string -> string, scan: seq<Module>, i: nat)
    requires i < |scan|
    ensures |Screened(fold, scan)| == |scan| && IsScreened(fold, scan, scan[i], Screened(fold, scan)[i])
  {
    var c := scan[i];
    var others := set d | d in scan && fold(d.id) == fold(c.id) && d.id != c.id :: d.id;
    assert Rivals(fold, scan, c.id) == others;
    SortSetIsSorted(others);
  }

  // ---------- the pipeline ----------

  ghost function Screened(fold: string -> string, scan: seq<Module>): seq<Module> {
    RejectDisabledIn(RejectCollisions(fold, scan))
  }

  ghost function Discover(fold: string -> string, scan: seq<Module>): seq<Module> {
    ApplyCapacity(Order(ById(Screened(fold, scan))), 0)
  }

  lemma ScreenedIsScanned(fold: string -> string, scan: seq<Module>)
    requires Scanned(scan)
    ensures Scanned(RejectCollisions(fold, scan)) && Scanned(Screened(fold, scan))
  {
    var r, s := RejectCollisions(fold, scan), Screened(fold, scan);
    forall i | 0 <= i < |scan|
      ensures r[i].id == s[i].id == scan[i].id && r[i].manifest == s[i].manifest == scan[i].manifest
    {
    }
  }

  /** The scanned candidate that survives both screens: parsed, enabled, and unique ignoring case. */
  ghost predicate Eligible(fold: string -> string, scan: seq<Module>, c: Module) {
    c in scan && c.state.Discovered? && c.manifest.Some? && c.manifest.value.enabled && Rivals(fold, scan, c.id) == {}
  }

  lemma RunnableIsEligible(fold: string -> string, scan: seq<Module>, id: string)
    requires Scanned(scan)
    ensures id in Runnable(ById(Screened(fold, scan))) <==> exists c :: Eligible(fold, scan, c) && c.id == id
    ensures id in Runnable(ById(Screened(fold, scan))) ==> ById(Screened(fold, scan))[id] in scan
  {
    var s := Screened(fold, scan);
    var byId := ById(s);
    ScreenedIsScanned(fold, scan);
    ByIdExact(s);
    if id in Runnable(byId) {
      var i :| 0 <= i < |s| && s[i] == byId[id];
      assert scan[i] in scan && s[i] == Gated(Judged(fold, scan, scan[i]));
      assert Eligible(fold, scan, scan[i]);
    }
    forall c | Eligible(fold, scan, c) && c.id == id ensures id in Runnable(byId) {
      var i :| 0 <= i < |scan| && scan[i] == c;
      assert s[i] == Gated(Judged(fold, scan, scan[i])) == c;
    }
  }

  /** The execution order holds exactly the eligible modules without a dependency path to a missing, disabled or invalid
      module or to a cycle. */
  lemma WhoIsOrdered(fold: string -> string, scan: seq<Module>, id: string)
    requires Scanned(scan)
    ensures var byId := ById(Screened(fold, scan));
            id in Elements(Prefix(byId)) <==>
              && (exists c :: Eligible(fold, scan, c) && c.id == id)
              && !Doomed(byId, id) && !ReachesCycle(Edges(byId, Invalidate(byId, map[]).Keys), id)
  {
    var byId := ById(Screened(fold, scan));
    RunnableIsEligible(fold, scan, id);
    Listings(byId);
    if id in byId {
      Verdicts(byId, id);
    }
  }

  /** Of these the first eight run, exactly as scanned and in that order, and nothing else does. */
  lemma WhoRuns(fold: string -> string, scan: seq<Module>, i: nat)
    requires Scanned(scan) && i < |Discover(fold, scan)|
    ensures var byId := ById(Screened(fold, scan));
            var r, order := Discover(fold, scan), Prefix(byId);
            && |r| == |scan|
            && (r[i].state.Discovered? <==> i < |order| && i < MAX_EXTERNAL_MODULES)
            && (r[i].state.Discovered? ==> r[i].id == order[i] && Eligible(fold, scan, r[i]))
  {
    var s := Screened(fold, scan);
    var byId := ById(s);
    ScreenedIsScanned(fold, scan);
    ByIdExact(s);
    OrderShape(byId);
    IndexSize(s);
    var order, out := Prefix(byId), Order(byId);
    CapacityKeepsPrefix(out, 0, |order|);
    if i < |order| && i < MAX_EXTERNAL_MODULES {
      Verdicts(byId, order[i]);
      assert order[i] in Elements(order);
      RunnableIsEligible(fold, scan, order[i]);
      var c :| Eligible(fold, scan, c) && c.id == order[i];
      SameCandidate(scan, byId[order[i]], c);
    }
  }

  lemma SameCandidate(scan: seq<Module>, a: Module, b: Module)
    requires Scanned(scan) && a in scan && b in scan && a.id == b.id
    ensures a == b
  {
    var i :| 0 <= i < |scan| && scan[i] == a;
    var j :| 0 <= j < |scan| && scan[j] == b;
  }

  lemma {:induction false} IndexSize(candidates: seq<Module>)
    requires Scanned(candidates)
    ensures |ById(candidates)| == |candidates|
  {
    if candidates != [] {
      var front := candidates[..|candidates| - 1];
      IndexSize(front);
      ByIdExact(front);
      var last := candidates[|candidates| - 1];
      forall m | m in ById(front) ensures m != last.id {
        var i :| 0 <= i < |front| && front[i] == ById(front)[m];
        assert candidates[i] == front[i];
      }
    }
  }

  /** No two modules that run have ids that differ only by case. */
  lemma NoTwoFoldAlike(fold: string -> string, scan: seq<Module>, i: nat, j: nat)
    requires Scanned(scan) && i < j < |Discover(fold, scan)|
    requires Discover(fold, scan)[i].state.Discovered? && Discover(fold, scan)[j].state.Discovered?
    ensures fold(Discover(fold, scan)[i].id) != fold(Discover(fold, scan)[j].id)
  {
    var a, b := Discover(fold, scan)[i], Discover(fold, scan)[j];
    WhoRuns(fold, scan, i);
    WhoRuns(fold, scan, j);
    var byId := ById(Screened(fold, scan));
    ScreenedIsScanned(fold, scan);
    ByIdExact(Screened(fold, scan));
    Listings(byId);
    assert a.id != b.id;
    assert fold(a.id) == fold(b.id) ==> b.id in Rivals(fold, scan, a.id);
  }

  /** The whole discovery is independent of the order of the scan, reasons included. */
  lemma DiscoveryIsCanonical(fold: string -> string, xs: seq<Module>, ys: seq<Module>)
    requires Scanned(xs) && Scanned(ys) && multiset(xs) == multiset(ys)
    ensures Discover(fold, xs) == Discover(fold, ys)
  {
    forall c ensures c in xs <==> c in ys {
      assert c in multiset(xs) <==> c in multiset(ys);
    }
    forall key ensures Group(fold, xs, key) == Group(fold, ys, key) {
    }
    var a, b := Screened(fold, xs), Screened(fold, ys);
    ScreenedIsScanned(fold, xs);
    ScreenedIsScanned(fold, ys);
    SameScreened(fold, xs, ys);
    SameScreened(fold, ys, xs);
    SameIndexOf(a, b);
  }

  lemma SameScreened(fold: string -> string, xs: seq<Module>, ys: seq<Module>)
    requires forall c :: c in xs ==> c in ys
    requires forall key :: Group(fold, xs, key) == Group(fold, ys, key)
    ensures forall m :: m in Screened(fold, xs) ==> m in Screened(fold, ys)
  {
    var a, b := Screened(fold, xs), Screened(fold, ys);
    forall m | m in a ensures m in b {
      var i :| 0 <= i < |a| && a[i] == m;
      assert xs[i] in ys;
      var j :| 0 <= j < |ys| && ys[j] == xs[i];
      assert b[j] == Gated(Judged(fold, ys, ys[j])) == m;
    }
  }

  lemma {:induction false} SameIndexOf(a: seq<Module>, b: seq<Module>)
    requires Scanned(a) && Scanned(b) && forall m :: m in a <==> m in b
    ensures ById(a) == ById(b)
  {
    ByIdExact(a);
    ByIdExact(b);
    forall id ensures id in ById(a) <==> id in ById(b) {
      if id in ById(a) {
        assert ById(a)[id] in b;
      }
      if id in ById(b) {
        assert ById(b)[id] in a;
      }
    }
    forall id | id in ById(a) ensures ById(a)[id] == ById(b)[id] {
      assert ById(a)[id] in b;
    }
  }

  /** `discover_modules` after the scan. */
  method DiscoverModules(fold: string -> string, scan: seq<Module>) returns (modules: seq<Module>)
    requires Scanned(scan)
    ensures modules == Discover(fold, scan)
  {
    ScreenedIsScanned(fold, scan);
    var candidates := RejectCaseCollisions(fold, scan);
    candidates := RejectDisabled(candidates);
    var ordered := Planner.Plan(candidates);
    modules := Planner.CutCapacity(ordered);
  }
}
