/** The transaction service object: its fields, its loops, refining the WorkingSet state machine. */
module TransactionService {
  import opened Wrappers
  import opened Json
  import opened Gate
  import opened Patch
  import opened WorkingSet
  import opened WorkingSetRuns

  class Service {
    const cfg: Config
    var cells: map<string, Object>
    var histories: map<string, seq<Object>>
    var cellRevisions: map<string, nat>
    var historyRevisions: map<string, nat>
    var transactions: map<string, Tx>

    ghost function Model(): Work
      reads this
    {
      Work(cells, histories, cellRevisions, historyRevisions, transactions)
    }

    /** The dictionaries have matching keys. */
    ghost predicate Consistent()
      reads this
    {
      Shaped(cfg, Model())
    }

    ghost predicate Valid()
      reads this
    {
      Inv(cfg, Model())
    }

    constructor (cfg: Config, cells: map<string, Object>, histories: map<string, seq<Object>>)
      ensures this.cfg == cfg && Valid() && Model() == Initial(cfg, cells, histories)
    {
      this.cfg := cfg;
      this.cells, this.histories := cells, histories;
      this.cellRevisions := map k | k in cells :: 0;
      this.historyRevisions := map k | k in histories :: 0;
      this.transactions := map k | k in cfg.manifests :: NEW_TX;
      new;
      InitialInv(cfg, cells, histories);
    }

    /** Checks the first of the remaining operations. */
    method StageNext(m: Manifest, resource: Resource, existing: Object, raws: seq<RawOp>, ghost all: Batch,
        ghost staged: seq<Op>)
      returns (checked: Result<Op, Error>)
      requires raws != [] && Extends(all, staged, CheckOps(cfg, m, resource, existing, raws))
      ensures checked.Failure? ==> all == Batch(staged, Some(checked.error))
      ensures checked.Success? ==>
                Extends(all, staged + [checked.value], CheckOps(cfg, m, resource, existing, raws[1..]))
    {
      CheckOpsFirst(all, staged, cfg, m, resource, existing, raws);
      checked := CheckOp(cfg, m, resource, existing, raws[0]);
    }

    /** Checks and collects operations one by one; a rejection leaves the accepted prefix staged. */
    method StageOps(m: Manifest, resource: Resource, existing: Object, raws: Option<seq<RawOp>>)
        returns (staged: seq<Op>, error: Option<Error>)
      ensures CheckBatch(cfg, m, resource, existing, raws) == Batch(staged, error)
    {
      staged := [];
      if raws.None? || raws.value == [] {
        return [], Some(InvalidPatch);
      }
      var ops := raws.value;
      var k := 0;
      ghost var all := CheckOps(cfg, m, resource, existing, ops);
      assert ops[0..] == ops && [] + all.ops == all.ops;
      while k < |ops|
        invariant 0 <= k <= |ops|
        invariant Extends(all, staged, CheckOps(cfg, m, resource, existing, ops[k..]))
      {
        var rest := ops[k..];
        assert rest != [] && rest[1..] == ops[k + 1..];
        var checked := StageNext(m, resource, existing, rest, all, staged);
        if checked.Failure? {
          return staged, Some(checked.error);
        }
        staged := staged + [checked.value];
        k := k + 1;
      }
      assert ops[k..] == [] && staged + [] == staged;
      error := None;
    }

    method StageCell(id: string, cell: string, revision: int, raws: Option<seq<RawOp>>) returns (error: Option<Error>)
      requires Consistent()
      modifies this
      ensures Reply(Model(), error) == WorkingSet.StageCell(cfg, old(Model()), id, cell, revision, raws)
    {
      if id !in transactions {
        return Some(AuthenticationFailed);
      }
      var tx := transactions[id];
      if tx.sealed || tx.abandoned {
        return Some(TransactionSealed);
      }
      if cell !in cells {
        return Some(NotFound);
      }
      if revision != cellRevisions[cell] {
        return Some(StaleRevision);
      }
      var staged;
      staged, error := StageOps(cfg.manifests[id], CurrentCells, cells[cell], raws);
      transactions := transactions[id := tx.(cells := Append(tx.cells, cell, staged))];
    }

    method StageHistory(id: string, cell: string, timestamp: string, revision: int, raws: Option<seq<RawOp>>)
      returns (error: Option<Error>)
      requires Consistent()
      modifies this
      ensures Reply(Model(), error) == WorkingSet.StageHistory(cfg, old(Model()), id, cell, timestamp, revision, raws)
    {
      if id !in transactions {
        return Some(AuthenticationFailed);
      }
      var tx := transactions[id];
      if tx.sealed || tx.abandoned {
        return Some(TransactionSealed);
      }
      if cell !in histories {
        return Some(NotFound);
      }
      if revision != historyRevisions[cell] {
        return Some(StaleRevision);
      }
      var entry := FindEntry(cfg, histories[cell], timestamp);
      if entry.None? {
        return Some(NotFound);
      }
      var staged;
      staged, error := StageOps(cfg.manifests[id], CellHistory, histories[cell][entry.value], raws);
      transactions := transactions[id := tx.(history := Append(tx.history, (cell, timestamp), staged))];
    }

    method StageAlert(id: string, payload: Option<Object>) returns (error: Option<Error>)
      requires Consistent()
      modifies this
      ensures Reply(Model(), error) == WorkingSet.StageAlert(cfg, old(Model()), id, payload)
    {
      if id !in transactions {
        return Some(AuthenticationFailed);
      }
      var tx := transactions[id];
      if tx.sealed || tx.abandoned {
        return Some(TransactionSealed);
      }
      if payload.None? || Get(payload.value, "source") != Some(Str(cfg.manifests[id].name)) {
        return Some(InvalidPatch);
      }
      if cfg.text(Get(payload.value, "cell_id")) !in cells
         || !Truthy(Get(payload.value, "id")) || !Truthy(Get(payload.value, "geometry")) {
        return Some(InvalidPatch);
      }
      error := JsonSafe(cfg, Obj(payload.value));
      if error.None? {
        transactions := transactions[id := tx.(alerts := tx.alerts + [payload.value])];
      }
    }

    /** The bytes of the staged routes other than `route`. */
    method OtherBytes(routes: seq<Route>, route: string) returns (total: nat)
      ensures total == RouteBytes(cfg, OtherRoutes(routes, route))
    {
      total := 0;
      var k := 0;
      while k < |routes|
        invariant 0 <= k <= |routes|
        invariant RouteBytes(cfg, OtherRoutes(routes, route))
               == total + RouteBytes(cfg, OtherRoutes(routes[k..], route))
      {
        assert routes[k..][0] == routes[k] && routes[k..][1..] == routes[k + 1..];
        ghost var rest := OtherRoutes(routes[k + 1..], route);
        if routes[k].id != route {
          assert ([routes[k]] + rest)[1..] == rest;
          total := total + SizeOf(cfg, routes[k].payload);
        } else {
          assert [] + rest == rest;
        }
        k := k + 1;
      }
    }

    method StageRoute(id: string, route: Option<string>, payload: Json) returns (error: Option<Error>)
      requires Consistent()
      modifies this
      ensures Reply(Model(), error) == WorkingSet.StageRoute(cfg, old(Model()), id, route, payload)
    {
      if id !in transactions {
        return Some(AuthenticationFailed);
      }
      var tx := transactions[id];
      if tx.sealed || tx.abandoned {
        return Some(TransactionSealed);
      }
      if route.None? || !SafeRouteId(route.value) {
        return Some(InvalidPatch);
      }
      if route.value !in cfg.manifests[id].routes {
        return Some(RouteNotDeclared);
      }
      var size := cfg.size(payload);
      if size.None? || !DepthAtMost(payload, MAX_ROUTE_DEPTH) {
        return Some(InvalidPatch);
      }
      if size.value > MAX_ROUTE_BYTES {
        return Some(RequestTooLarge);
      }
      var existing := OtherBytes(tx.routes, route.value);
      if existing + size.value > MAX_ROUTE_TOTAL_BYTES {
        return Some(RequestTooLarge);
      }
      transactions := transactions[id := tx.(routes := PutRoute(tx.routes, Route(route.value, payload)))];
      return None;
    }

    method Abandon(id: string) returns (error: Option<Error>)
      requires Consistent()
      modifies this
      ensures Reply(Model(), error) == WorkingSet.Abandon(old(Model()), id)
    {
      if id !in transactions {
        return Some(AuthenticationFailed);
      }
      var tx := transactions[id];
      if tx.sealed || tx.abandoned {
        return Some(TransactionSealed);
      }
      transactions := transactions[id := tx.(cells := [], history := [], alerts := [], routes := [],
          abandoned := true)];
      return None;
    }

    method Validate(id: string) returns (error: Option<Error>)
      requires Consistent()
      ensures error == WorkingSet.Validate(cfg, Model(), id)
    {
      if id !in transactions {
        return Some(AuthenticationFailed);
      }
      var tx := transactions[id];
      var k := 0;
      while k < |tx.cells|
        invariant 0 <= k <= |tx.cells|
        invariant ValidateCells(Model(), tx.cells) == ValidateCells(Model(), tx.cells[k..])
      {
        assert tx.cells[k..][0] == tx.cells[k] && tx.cells[k..][1..] == tx.cells[k + 1..];
        if tx.cells[k].key !in cells {
          return Some(Unhandled);
        }
        var applied := ApplyAll(cells[tx.cells[k].key], tx.cells[k].ops);
        if applied.Failure? {
          return Some(applied.error);
        }
        k := k + 1;
      }
      k := 0;
      while k < |tx.history|
        invariant 0 <= k <= |tx.history|
        invariant ValidateHistory(cfg, Model(), tx.history) == ValidateHistory(cfg, Model(), tx.history[k..])
      {
        assert tx.history[k..][0] == tx.history[k] && tx.history[k..][1..] == tx.history[k + 1..];
        var (cell, timestamp) := tx.history[k].key;
        if cell !in histories {
          return Some(Unhandled);
        }
        var n := FindEntry(cfg, histories[cell], timestamp);
        if n.None? {
          return Some(Unhandled);
        }
        var applied := ApplyAll(histories[cell][n.value], tx.history[k].ops);
        if applied.Failure? {
          return Some(applied.error);
        }
        k := k + 1;
      }
      return None;
    }

    method WriteStagedCells(staged: seq<Staged<string>>) returns (error: Option<Error>)
      modifies this`cells, this`cellRevisions
      ensures Reply(Model(), error) == WriteCells(old(Model()), staged)
    {
      var k := 0;
      while k < |staged|
        invariant 0 <= k <= |staged|
        invariant WriteCells(old(Model()), staged) == WriteCells(Model(), staged[k..])
      {
        assert staged[k..][0] == staged[k] && staged[k..][1..] == staged[k + 1..];
        var key := staged[k].key;
        if key !in cells || key !in cellRevisions {
          return Some(Unhandled);
        }
        var applied := ApplyAll(cells[key], staged[k].ops);
        if applied.Failure? {
          return Some(applied.error);
        }
        cells := cells[key := applied.value];
        cellRevisions := cellRevisions[key := cellRevisions[key] + 1];
        k := k + 1;
      }
      return None;
    }

    /** Writes the entry that one staged key selects. */
    method WriteEntry(staged: Staged<(string, string)>) returns (error: Option<Error>)
      modifies this`histories, this`historyRevisions
      ensures match ApplyEntry(cfg, old(Model()), staged)
              case Failure(e) => error == Some(e) && Model() == old(Model())
              case Success(next) => error == None && Model() == next
    {
      var (cell, timestamp) := staged.key;
      if cell !in histories || cell !in historyRevisions {
        return Some(Unhandled);
      }
      var n := FindEntry(cfg, histories[cell], timestamp);
      if n.None? {
        return Some(Unhandled);
      }
      var applied := ApplyAll(histories[cell][n.value], staged.ops);
      if applied.Failure? {
        return Some(applied.error);
      }
      histories := histories[cell := histories[cell][n.value := applied.value]];
      historyRevisions := historyRevisions[cell := historyRevisions[cell] + 1];
      return None;
    }

    method WriteStagedHistory(staged: seq<Staged<(string, string)>>) returns (error: Option<Error>)
      modifies this`histories, this`historyRevisions
      ensures Reply(Model(), error) == WriteHistory(cfg, old(Model()), staged)
    {
      var k := 0;
      while k < |staged|
        invariant 0 <= k <= |staged|
        invariant WriteHistory(cfg, old(Model()), staged) == WriteHistory(cfg, Model(), staged[k..])
      {
        assert staged[k..][0] == staged[k] && staged[k..][1..] == staged[k + 1..];
        error := WriteEntry(staged[k]);
        if error.Some? {
          return;
        }
        k := k + 1;
      }
      return None;
    }

    method Commit(id: string, receipt: Receipt) returns (error: Option<Error>)
      requires Consistent()
      modifies this
      ensures Reply(Model(), error) == WorkingSet.Commit(cfg, old(Model()), id, receipt)
    {
      if id !in transactions {
        return Some(AuthenticationFailed);
      }
      var tx := transactions[id];
      if tx.sealed {
        return None;
      }
      error := Validate(id);
      if error.Some? {
        return;
      }
      error := WriteStagedCells(tx.cells);
      if error.Some? {
        return;
      }
      error := WriteStagedHistory(tx.history);
      if error.Some? {
        return;
      }
      transactions := transactions[id := tx.(sealed := true, receipt := Some(receipt))];
    }

    /** One public call under the service lock. */
    method Serve(call: Call) returns (error: Option<Error>)
      requires Valid()
      modifies this
      ensures Valid() && Reply(Model(), error) == Step(cfg, old(Model()), call)
    {
      StepKeepsInv(cfg, Model(), call);
      error := Dispatch(call);
    }

    method Dispatch(call: Call) returns (error: Option<Error>)
      requires Consistent()
      modifies this
      ensures Reply(Model(), error) == Step(cfg, old(Model()), call)
    {
      match call
      case CallStageCell(id, cell, revision, raws) => error := StageCell(id, cell, revision, raws);
      case CallStageHistory(id, cell, timestamp, revision, raws) =>
        error := StageHistory(id, cell, timestamp, revision, raws);
      case CallStageAlert(id, payload) => error := StageAlert(id, payload);
      case CallStageRoute(id, route, json) => error := StageRoute(id, route, json);
      case CallAbandon(id) => error := Abandon(id);
      case CallValidate(id) => error := Validate(id);
      case CallCommit(id, receipt) => error := Commit(id, receipt);
    }

    method PublishableAlerts() returns (alerts: seq<Object>)
      ensures alerts == CommittedAlerts(cfg.order, transactions)
    {
      alerts := [];
      var k := 0;
      while k < |cfg.order|
        invariant 0 <= k <= |cfg.order|
        invariant CommittedAlerts(cfg.order, transactions) == alerts + CommittedAlerts(cfg.order[k..], transactions)
      {
        var id := cfg.order[k];
        assert cfg.order[k..][0] == id && cfg.order[k..][1..] == cfg.order[k + 1..];
        ghost var rest := CommittedAlerts(cfg.order[k + 1..], transactions);
        var mine := if id in transactions && transactions[id].sealed then transactions[id].alerts else [];
        assert alerts + (mine + rest) == (alerts + mine) + rest;
        alerts := alerts + mine;
        k := k + 1;
      }
    }
  }

  /** `all` is the outcome of a batch of which `staged` has been accepted and `rest` remains. */
  ghost predicate Extends(all: Batch, staged: seq<Op>, rest: Batch) {
    all == Batch(staged + rest.ops, rest.error)
  }

  lemma {:induction false} CheckOpsFirst(
    all: Batch, staged: seq<Op>, cfg: Config, m: Manifest, resource: Resource, existing: Object, raws: seq<RawOp>)
    requires raws != [] && Extends(all, staged, CheckOps(cfg, m, resource, existing, raws))
    ensures match CheckOp(cfg, m, resource, existing, raws[0])
            case Failure(e) => all == Batch(staged, Some(e))
            case Success(op) => Extends(all, staged + [op], CheckOps(cfg, m, resource, existing, raws[1..]))
  {
    match CheckOp(cfg, m, resource, existing, raws[0])
    case Failure(e) =>
      assert staged + [] == staged;
    case Success(op) =>
      var rest := CheckOps(cfg, m, resource, existing, raws[1..]);
      assert staged + ([op] + rest.ops) == (staged + [op]) + rest.ops;
  }
}
