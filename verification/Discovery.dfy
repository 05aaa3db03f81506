/**
 Dependency planning of src/EdgeWARN/ctam/discovery.py: invalidation to a fixed point,
 Kahn's algorithm over a sorted ready set, and the capacity cut.
 */
module Discovery {
  import opened Wrappers
  import opened Collections
  import opened Ordering

  const MAX_EXTERNAL_MODULES: nat := 8

  const RESERVED_MODULE_IDS: set<string> := {"stormprob"}

  datatype State = Discovered | Invalid | SkippedDisabled

  datatype Manifest = Manifest(after: seq<string>, enabled: bool)

  datatype Reason =
    | Rejected(text: string)
    | TurnedOff
    | Collides(others: seq<string>)
    | MissingDependency(dependency: string)
    | DisabledDependency(dependency: string)
    | InvalidDependency(dependency: string)
    | InCycle(members: seq<string>)
    | OverCapacity(position: nat)

  datatype Module = Module(id: string, manifest: Option<Manifest>, state: State, reason: Option<Reason>)

  type Index = map<string, Module>

  function Invalidated(m: Module, reason: Reason): Module {
    m.(state := Invalid, reason := Some(reason))
  }

  // ---------- the candidates ----------

  function ById(candidates: seq<Module>): Index
    decreases |candidates|
  {
    if candidates == [] then map[]
    else
      var last := candidates[|candidates| - 1];
      ById(candidates[..|candidates| - 1])[last.id := last]
  }

  /** The scan yields one candidate per directory, and a parsed manifest for each discovered one. */
  ghost predicate Scanned(candidates: seq<Module>) {
    && (forall i, j :: 0 <= i < j < |candidates| ==> candidates[i].id != candidates[j].id)
    && (forall i :: 0 <= i < |candidates| ==> candidates[i].state.Discovered? ==> candidates[i].manifest.Some?)
  }

  predicate WellFormed(byId: Index) {
    forall m :: m in byId ==> byId[m].id == m && (byId[m].state.Discovered? ==> byId[m].manifest.Some?)
  }

  lemma {:induction false} ByIdExact(candidates: seq<Module>)
    requires Scanned(candidates)
    ensures var byId := ById(candidates);
            && WellFormed(byId)
            && (forall i :: 0 <= i < |candidates| ==>
                  candidates[i].id in byId && byId[candidates[i].id] == candidates[i])
            && (forall m :: m in byId ==> exists i :: 0 <= i < |candidates| && candidates[i] == byId[m])
    decreases |candidates|
  {
    if candidates != [] {
      var front := candidates[..|candidates| - 1];
      ByIdExact(front);
      var byId := ById(candidates);
      forall i | 0 <= i < |candidates| ensures candidates[i].id in byId && byId[candidates[i].id] == candidates[i] {
        if i < |front| {
          assert front[i] == candidates[i];
        }
      }
      forall m | m in byId ensures exists i :: 0 <= i < |candidates| && candidates[i] == byId[m] {
        if m == candidates[|candidates| - 1].id {
          assert candidates[|candidates| - 1] == byId[m];
        } else {
          var i :| 0 <= i < |front| && front[i] == ById(front)[m];
          assert candidates[i] == byId[m];
        }
      }
    }
  }

  function Runnable(byId: Index): set<string> {
    set m | m in byId && byId[m].state.Discovered?
  }

  function AfterOf(byId: Index, m: string): seq<string>
    requires m in byId
  {
    if byId[m].manifest.Some? then byId[m].manifest.value.after else []
  }

  // ---------- invalidation ----------

  function Blockage(byId: Index, invalid: set<string>, dependency: string): Option<Reason> {
    if dependency in RESERVED_MODULE_IDS then None
    else if dependency !in byId then Some(MissingDependency(dependency))
    else if byId[dependency].state.SkippedDisabled? then Some(DisabledDependency(dependency))
    else if byId[dependency].state.Invalid? || dependency in invalid then Some(InvalidDependency(dependency))
    else None
  }

  function FirstBlockage(byId: Index, invalid: set<string>, after: seq<string>): Option<Reason>
    decreases |after|
  {
    if after == [] then None
    else if Blockage(byId, invalid, after[0]).Some? then Blockage(byId, invalid, after[0])
    else FirstBlockage(byId, invalid, after[1..])
  }

  lemma {:induction false} FirstBlockageExact(byId: Index, invalid: set<string>, after: seq<string>)
    ensures FirstBlockage(byId, invalid, after).Some? <==> exists d :: d in after && Blockage(byId, invalid, d).Some?
    decreases |after|
  {
    if after != [] {
      FirstBlockageExact(byId, invalid, after[1..]);
      assert forall d :: d in after <==> d == after[0] || d in after[1..];
    }
  }

  function NewlyInvalid(byId: Index, invalid: map<string, Reason>): map<string, Reason> {
    map m | m in Runnable(byId) && m !in invalid && FirstBlockage(byId, invalid.Keys, AfterOf(byId, m)).Some?
      :: FirstBlockage(byId, invalid.Keys, AfterOf(byId, m)).value
  }

  function Invalidate(byId: Index, invalid: map<string, Reason>): (r: map<string, Reason>)
    decreases |Runnable(byId) - invalid.Keys|
  {
    var newly := NewlyInvalid(byId, invalid);
    if newly == map[] then invalid
    else
      NewlyShrinks(byId, invalid);
      Invalidate(byId, invalid + newly)
  }

  lemma NewlyShrinks(byId: Index, invalid: map<string, Reason>)
    requires NewlyInvalid(byId, invalid) != map[]
    ensures |Runnable(byId) - (invalid + NewlyInvalid(byId, invalid)).Keys| < |Runnable(byId) - invalid.Keys|
  {
    var newly := NewlyInvalid(byId, invalid);
    assert newly.Keys != {};
    var m :| m in newly;
    assert m in Runnable(byId) - invalid.Keys;
    SubsetSmaller(Runnable(byId) - (invalid + newly).Keys, Runnable(byId) - invalid.Keys);
  }

  // ---------- Kahn ----------

  type Graph = map<string, set<string>>

  function Edges(byId: Index, invalid: set<string>): Graph {
    map m | m in Runnable(byId) && m !in invalid ::
      set d | d in AfterOf(byId, m) && d in Runnable(byId) && d !in invalid
  }

  ghost function Ready(g: Graph, done: set<string>): set<string> {
    set m | m in g && m !in done && g[m] <= done
  }

  ghost function Kahn(g: Graph, done: seq<string>): seq<string>
    decreases |g.Keys - Elements(done)|
  {
    var ready := Ready(g, Elements(done));
    if ready == {} then done
    else
      KahnShrinks(g, done);
      Kahn(g, done + [MinOf(ready)])
  }

  lemma KahnShrinks(g: Graph, done: seq<string>)
    requires Ready(g, Elements(done)) != {}
    ensures |g.Keys - Elements(done + [MinOf(Ready(g, Elements(done)))])| < |g.Keys - Elements(done)|
  {
    var m := MinOf(Ready(g, Elements(done)));
    assert m in Ready(g, Elements(done));
    assert Elements(done + [m]) == Elements(done) + {m};
    SubsetSmaller(g.Keys - Elements(done + [m]), g.Keys - Elements(done));
  }

  // ---------- the whole order ----------

  ghost function Final(byId: Index, invalid: map<string, Reason>, stuck: set<string>, m: string): Module
    requires m in byId
  {
    if m in stuck then Invalidated(byId[m], InCycle(SortSet(stuck)))
    else if m in invalid then Invalidated(byId[m], invalid[m])
    else byId[m]
  }

  ghost function Pick(byId: Index, ids: seq<string>): seq<Module>
    requires forall i :: 0 <= i < |ids| ==> ids[i] in byId
  {
    seq(|ids|, i requires 0 <= i < |ids| => byId[ids[i]])
  }

  ghost function Finals(byId: Index, invalid: map<string, Reason>, stuck: set<string>, ids: seq<string>): seq<Module>
    requires forall i :: 0 <= i < |ids| ==> ids[i] in byId
  {
    seq(|ids|, i requires 0 <= i < |ids| => Final(byId, invalid, stuck, ids[i]))
  }

  /** The runnable modules in execution order. */
  ghost function Prefix(byId: Index): seq<string> {
    Kahn(Edges(byId, Invalidate(byId, map[]).Keys), [])
  }

  /** The modules left over by Kahn's algorithm. */
  ghost function Stuck(byId: Index): set<string> {
    Edges(byId, Invalidate(byId, map[]).Keys).Keys - Elements(Prefix(byId))
  }

  /** Everything that is not in the execution order, by id. */
  ghost function Trailing(byId: Index): seq<string> {
    SortSet(byId.Keys - Elements(Prefix(byId)))
  }

  ghost function Order(byId: Index): seq<Module> {
    PrefixIsIndexed(byId);
    TrailingIsIndexed(byId);
    Pick(byId, Prefix(byId)) + Finals(byId, Invalidate(byId, map[]), Stuck(byId), Trailing(byId))
  }

  lemma PrefixIsIndexed(byId: Index)
    ensures forall i :: 0 <= i < |Prefix(byId)| ==> Prefix(byId)[i] in byId
  {
    var g, ids := Edges(byId, Invalidate(byId, map[]).Keys), Prefix(byId);
    KahnEmits(g, []);
    forall i | 0 <= i < |ids| ensures ids[i] in byId {
      assert ids[i] in Elements(ids);
      assert ids[i] in g;
    }
  }

  lemma TrailingIsIndexed(byId: Index)
    ensures forall i :: 0 <= i < |Trailing(byId)| ==> Trailing(byId)[i] in byId
  {
    var rest := Trailing(byId);
    SortSetIsSorted(byId.Keys - Elements(Prefix(byId)));
    forall i | 0 <= i < |rest| ensures rest[i] in byId {
      assert rest[i] in Elements(rest);
    }
  }

  /** Each emitted node is in the graph, is new, and comes after everything it depends on. */
  ghost predicate Topological(g: Graph, s: seq<string>) {
    && NoDuplicates(s)
    && forall i :: 0 <= i < |s| ==> s[i] in g && g[s[i]] <= Elements(s[..i])
  }

  lemma {:induction false} KahnEmits(g: Graph, done: seq<string>)
    requires Topological(g, done)
    ensures var s := Kahn(g, done);
            done <= s && Topological(g, s) && Ready(g, Elements(s)) == {} && Elements(s) <= g.Keys
    decreases |g.Keys - Elements(done)|
  {
    var ready := Ready(g, Elements(done));
    if ready == {} {
      forall x | x in Elements(done) ensures x in g.Keys {
        var i :| 0 <= i < |done| && done[i] == x;
      }
    } else {
      KahnShrinks(g, done);
      ReadyExtends(g, done, MinOf(ready));
      KahnEmits(g, done + [MinOf(ready)]);
    }
  }

  lemma ReadyExtends(g: Graph, done: seq<string>, m: string)
    requires Topological(g, done) && m in Ready(g, Elements(done))
    ensures Topological(g, done + [m])
  {
    var s := done + [m];
    forall i | 0 <= i < |s| ensures s[i] in g && g[s[i]] <= Elements(s[..i]) {
      if i < |done| {
        assert s[..i] == done[..i];
      } else {
        assert s[..i] == done;
      }
    }
    forall i, j | 0 <= i < j < |s| ensures s[i] != s[j] {
      assert j == |done| ==> s[i] in Elements(done);
    }
  }
}
