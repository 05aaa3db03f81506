/** Invariants of the working set over every sequence of service calls. */
module WorkingSetRuns {
  import opened Wrappers
  import opened Json
  import opened Gate
  import opened Patch
  import opened WorkingSet
  import opened WorkingSetCommit

  // ---------- the invariant ----------

  ghost predicate AlertsInv(cfg: Config, m: Manifest, w: Work, alerts: seq<Object>) {
    forall i :: 0 <= i < |alerts| ==>
      && Get(alerts[i], "source") == Some(Str(m.name))
      && cfg.text(Get(alerts[i], "cell_id")) in w.cells
  }

  ghost predicate RoutesInv(cfg: Config, m: Manifest, routes: seq<Route>) {
    && RouteBytes(cfg, routes) <= MAX_ROUTE_TOTAL_BYTES
    && (forall i :: 0 <= i < |routes| ==> routes[i].id in m.routes && SizeOf(cfg, routes[i].payload) <= MAX_ROUTE_BYTES)
    && (forall i, j :: 0 <= i < j < |routes| ==> routes[i].id != routes[j].id)
  }

  ghost predicate TxInv(cfg: Config, m: Manifest, w: Work, tx: Tx) {
    && CellsInv(m, w, tx.cells) && HistoryInv(cfg, m, w, tx.history)
    && AlertsInv(cfg, m, w, tx.alerts) && RoutesInv(cfg, m, tx.routes)
    && (tx.abandoned ==> tx.cells == [] && tx.history == [] && tx.alerts == [] && tx.routes == [])
    && (tx.sealed <==> tx.receipt.Some?)
  }

  ghost predicate Inv(cfg: Config, w: Work) {
    Shaped(cfg, w) && forall id :: id in w.txs ==> TxInv(cfg, cfg.manifests[id], w, w.txs[id])
  }

  lemma InitialInv(cfg: Config, cells: map<string, Object>, histories: map<string, seq<Object>>)
    ensures Inv(cfg, Initial(cfg, cells, histories))
  {}

  lemma InvReady(cfg: Config, w: Work, id: string)
    requires Inv(cfg, w) && id in w.txs
    ensures TxReady(cfg, w, id)
  {
    assert TxInv(cfg, cfg.manifests[id], w, w.txs[id]);
  }

  lemma TxInvFrame(cfg: Config, m: Manifest, w: Work, next: Work, tx: Tx)
    requires TxInv(cfg, m, w, tx) && next.cells == w.cells && next.histories == w.histories
    ensures TxInv(cfg, m, next, tx)
  {}

  lemma PutKeepsInv(cfg: Config, w: Work, id: string, tx: Tx)
    requires Inv(cfg, w) && id in w.txs && TxInv(cfg, cfg.manifests[id], w, tx)
    ensures Inv(cfg, Put(w, id, tx))
  {
    var next := Put(w, id, tx);
    forall other | other in next.txs ensures TxInv(cfg, cfg.manifests[other], next, next.txs[other]) {
      assert TxInv(cfg, cfg.manifests[other], w, next.txs[other]);
      TxInvFrame(cfg, cfg.manifests[other], w, next, next.txs[other]);
    }
  }

  // ---------- staging ----------

  lemma {:induction false} AppendKeys<K(!new)>(list: seq<Staged<K>>, key: K, ops: seq<Op>)
    requires Distinct(list)
    ensures var out := Append(list, key, ops);
            && Distinct(out)
            && (forall i :: 0 <= i < |out| ==> out[i] in list || out[i] == Staged(key, OpsFor(list, key) + ops))
            && (forall k :: HasKey(out, k) <==> k == key || HasKey(list, k))
    decreases |list|
  {
    var out := Append(list, key, ops);
    if list == [] {
      assert out[0] == Staged(key, [] + ops) by { assert [] + ops == ops; }
      assert forall k :: HasKey(out, k) <==> k == key by {
        assert out[0].key == key;
      }
    } else {
      TailDistinct(list);
      if list[0].key == key {
        forall i | 1 <= i < |out| ensures out[i] in list && out[i] == list[i] {}
        forall k ensures HasKey(out, k) <==> k == key || HasKey(list, k) {
          HasKeyCons(out, k);
          HasKeyCons(list, k);
          assert out[1..] == list[1..];
        }
      } else {
        AppendKeys(list[1..], key, ops);
        var tail := Append(list[1..], key, ops);
        assert out[1..] == tail;
        forall i | 1 <= i < |out|
          ensures out[i] in list || out[i] == Staged(key, OpsFor(list, key) + ops)
          ensures out[i].key != list[0].key
        {
          assert out[i] == tail[i - 1];
          assert HasKey(tail, out[i].key);
          assert tail[i - 1] in list[1..] ==> tail[i - 1] in list;
        }
        forall k ensures HasKey(out, k) <==> k == key || HasKey(list, k) {
          HasKeyCons(out, k);
          HasKeyCons(list, k);
        }
        forall i, j | 0 <= i < j < |out| ensures out[i].key != out[j].key {
          if i > 0 {
            assert out[i] == tail[i - 1] && out[j] == tail[j - 1];
          }
        }
      }
    }
  }

  lemma {:induction false} CheckOpsAdmitted(cfg: Config, m: Manifest, resource: Resource, existing: Object,
      raws: seq<RawOp>)
    ensures AllAdmitted(m, resource, CheckOps(cfg, m, resource, existing, raws).ops)
    decreases |raws|
  {
    if raws != [] {
      CheckOpsAdmitted(cfg, m, resource, existing, raws[1..]);
    }
  }

  /** The staged operations, or none, are admitted ones. */
  lemma {:induction false} OpsForAdmitted<K(!new)>(m: Manifest, resource: Resource, staged: seq<Staged<K>>, key: K)
    requires forall i :: 0 <= i < |staged| ==> AllAdmitted(m, resource, staged[i].ops)
    ensures AllAdmitted(m, resource, OpsFor(staged, key))
    decreases |staged|
  {
    if staged != [] && staged[0].key != key {
      OpsForAdmitted(m, resource, staged[1..], key);
    }
  }

  lemma {:induction false} AppendCellsInv(m: Manifest, w: Work, staged: seq<Staged<string>>, cell: string, ops: seq<Op>)
    requires CellsInv(m, w, staged) && cell in w.cells && AllAdmitted(m, CurrentCells, ops)
    ensures CellsInv(m, w, Append(staged, cell, ops))
  {
    AppendKeys(staged, cell, ops);
    OpsForAdmitted(m, CurrentCells, staged, cell);
    var out := Append(staged, cell, ops);
    forall i | 0 <= i < |out| ensures out[i].key in w.cells && AllAdmitted(m, CurrentCells, out[i].ops) {
      assert out[i] in staged || out[i] == Staged(cell, OpsFor(staged, cell) + ops);
    }
  }

  lemma {:induction false} AppendHistoryInv(
    cfg: Config, m: Manifest, w: Work, staged: seq<Staged<(string, string)>>, key: (string, string), ops: seq<Op>)
    requires HistoryInv(cfg, m, w, staged) && key.0 in w.histories
    requires FindEntry(cfg, w.histories[key.0], key.1).Some? && AllAdmitted(m, CellHistory, ops)
    ensures HistoryInv(cfg, m, w, Append(staged, key, ops))
  {
    AppendKeys(staged, key, ops);
    OpsForAdmitted(m, CellHistory, staged, key);
    var out := Append(staged, key, ops);
    forall i | 0 <= i < |out|
      ensures out[i].key.0 in w.histories && FindEntry(cfg, w.histories[out[i].key.0], out[i].key.1).Some?
      ensures AllAdmitted(m, CellHistory, out[i].ops)
    {
      assert out[i] in staged || out[i] == Staged(key, OpsFor(staged, key) + ops);
    }
  }

  lemma CheckBatchAdmitted(cfg: Config, m: Manifest, resource: Resource, existing: Object, raws: Option<seq<RawOp>>)
    ensures AllAdmitted(m, resource, CheckBatch(cfg, m, resource, existing, raws).ops)
  {
    if raws.Some? {
      CheckOpsAdmitted(cfg, m, resource, existing, raws.value);
    }
  }

  lemma StageCellKeepsInv(cfg: Config, w: Work, id: string, cell: string, revision: int, raws: Option<seq<RawOp>>)
    requires Inv(cfg, w)
    ensures Inv(cfg, StageCell(cfg, w, id, cell, revision, raws).work)
  {
    if OpenError(w, id).None? && cell in w.cells && revision == w.cellRevisions[cell] {
      var m, tx := cfg.manifests[id], w.txs[id];
      var batch := CheckBatch(cfg, m, CurrentCells, w.cells[cell], raws);
      CheckBatchAdmitted(cfg, m, CurrentCells, w.cells[cell], raws);
      assert TxInv(cfg, m, w, tx);
      AppendCellsInv(m, w, tx.cells, cell, batch.ops);
      PutKeepsInv(cfg, w, id, tx.(cells := Append(tx.cells, cell, batch.ops)));
    }
  }

  lemma StageHistoryKeepsInv(
    cfg: Config, w: Work, id: string, cell: string, timestamp: string, revision: int, raws: Option<seq<RawOp>>)
    requires Inv(cfg, w)
    ensures Inv(cfg, StageHistory(cfg, w, id, cell, timestamp, revision, raws).work)
  {
    if OpenError(w, id).None? && cell in w.histories && revision == w.historyRevisions[cell]
       && FindEntry(cfg, w.histories[cell], timestamp).Some? {
      var n := FindEntry(cfg, w.histories[cell], timestamp).value;
      var m, tx := cfg.manifests[id], w.txs[id];
      var batch := CheckBatch(cfg, m, CellHistory, w.histories[cell][n], raws);
      CheckBatchAdmitted(cfg, m, CellHistory, w.histories[cell][n], raws);
      assert TxInv(cfg, m, w, tx);
      AppendHistoryInv(cfg, m, w, tx.history, (cell, timestamp), batch.ops);
      PutKeepsInv(cfg, w, id, tx.(history := Append(tx.history, (cell, timestamp), batch.ops)));
    }
  }

  lemma {:induction false} PutRouteBytes(cfg: Config, routes: seq<Route>, route: Route)
    requires forall i, j :: 0 <= i < j < |routes| ==> routes[i].id != routes[j].id
    ensures RouteBytes(cfg, PutRoute(routes, route))
         == RouteBytes(cfg, OtherRoutes(routes, route.id)) + SizeOf(cfg, route.payload)
    decreases |routes|
  {
    if routes == [] {
      assert PutRoute(routes, route)[1..] == [];
    } else if routes[0].id == route.id {
      OthersAbsent(routes[1..], route.id);
      assert PutRoute(routes, route)[1..] == routes[1..];
      assert OtherRoutes(routes, route.id) == routes[1..];
    } else {
      PutRouteBytes(cfg, routes[1..], route);
      assert PutRoute(routes, route)[1..] == PutRoute(routes[1..], route);
      var others := OtherRoutes(routes[1..], route.id);
      assert ([routes[0]] + others)[1..] == others;
    }
  }

  /** Replacing or adding one route: each position holds the new route or an old one, under distinct ids. */
  lemma {:induction false} PutRouteShape(routes: seq<Route>, route: Route)
    requires forall i, j :: 0 <= i < j < |routes| ==> routes[i].id != routes[j].id
    ensures var out := PutRoute(routes, route);
            && |routes| <= |out| <= |routes| + 1
            && (forall i :: 0 <= i < |out| ==> out[i] == route || (i < |routes| && out[i] == routes[i]))
            && (forall i, j :: 0 <= i < j < |out| ==> out[i].id != out[j].id)
    decreases |routes|
  {
    if routes != [] && routes[0].id != route.id {
      PutRouteShape(routes[1..], route);
      var out, tail := PutRoute(routes, route), PutRoute(routes[1..], route);
      forall i | 1 <= i < |out| ensures out[i] == route || (i < |routes| && out[i] == routes[i]) {
        assert out[i] == tail[i - 1];
      }
    }
  }

  lemma {:induction false} OthersAbsent(routes: seq<Route>, id: string)
    requires forall i :: 0 <= i < |routes| ==> routes[i].id != id
    ensures OtherRoutes(routes, id) == routes
    decreases |routes|
  {
    if routes != [] {
      OthersAbsent(routes[1..], id);
    }
  }

  lemma StageRouteKeepsInv(cfg: Config, w: Work, id: string, route: Option<string>, payload: Json)
    requires Inv(cfg, w)
    ensures Inv(cfg, StageRoute(cfg, w, id, route, payload).work)
  {
    var r := StageRoute(cfg, w, id, route, payload);
    if r.error.None? {
      var m, tx := cfg.manifests[id], w.txs[id];
      assert TxInv(cfg, m, w, tx);
      RoutesStayWithinLimits(cfg, m, tx.routes, Route(route.value, payload));
      PutKeepsInv(cfg, w, id, tx.(routes := PutRoute(tx.routes, Route(route.value, payload))));
    }
  }

  lemma {:induction false} RoutesStayWithinLimits(cfg: Config, m: Manifest, routes: seq<Route>, route: Route)
    requires RoutesInv(cfg, m, routes)
    requires route.id in m.routes && SizeOf(cfg, route.payload) <= MAX_ROUTE_BYTES
    requires RouteBytes(cfg, OtherRoutes(routes, route.id)) + SizeOf(cfg, route.payload) <= MAX_ROUTE_TOTAL_BYTES
    ensures RoutesInv(cfg, m, PutRoute(routes, route))
  {
    PutRouteBytes(cfg, routes, route);
    PutRouteShape(routes, route);
  }

  lemma StageAlertKeepsInv(cfg: Config, w: Work, id: string, payload: Option<Object>)
    requires Inv(cfg, w)
    ensures Inv(cfg, StageAlert(cfg, w, id, payload).work)
  {
    var r := StageAlert(cfg, w, id, payload);
    if r.error.None? {
      var tx := w.txs[id];
      assert TxInv(cfg, cfg.manifests[id], w, tx);
      PutKeepsInv(cfg, w, id, tx.(alerts := tx.alerts + [payload.value]));
    }
  }

  // ---------- what a commit preserves ----------

  /** Entry by entry, nothing outside the owned slots differs. */
  ghost predicate WorkPreserved(own: Slots, a: Work, b: Work) {
    && a.cells.Keys == b.cells.Keys && a.histories.Keys == b.histories.Keys
    && (forall c :: c in a.cells ==> Preserved(own, a.cells[c], b.cells[c]))
    && (forall h :: h in a.histories ==> |a.histories[h]| == |b.histories[h]|)
    && (forall h, i :: h in a.histories && 0 <= i < |a.histories[h]| ==>
          Preserved(own, a.histories[h][i], b.histories[h][i]))
  }

  lemma WrittenPreserves(cfg: Config, w: Work, id: string, after: Work)
    requires TxReady(cfg, w, id) && Written(cfg, w, after, w.txs[id])
    ensures WorkPreserved(SlotsOf(cfg.manifests[id]), w, after)
  {
    var m, tx := cfg.manifests[id], w.txs[id];
    forall c | c in w.cells ensures Preserved(SlotsOf(m), w.cells[c], after.cells[c]) {
      OpsForAdmitted(m, CurrentCells, tx.cells, c);
      AdmittedWithin(m, CurrentCells, OpsFor(tx.cells, c));
      ApplyPreserves(SlotsOf(m), w.cells[c], OpsFor(tx.cells, c));
    }
    forall h, i | h in w.histories && 0 <= i < |w.histories[h]|
      ensures Preserved(SlotsOf(m), w.histories[h][i], after.histories[h][i])
    {
      EntryOpsAdmitted(cfg, m, w, tx.history, h, i);
      AdmittedWithin(m, CellHistory, EntryOps(cfg, tx.history, h, w.histories[h], i));
      ApplyPreserves(SlotsOf(m), w.histories[h][i], EntryOps(cfg, tx.history, h, w.histories[h], i));
    }
  }

  lemma EntryOpsAdmitted(cfg: Config, m: Manifest, w: Work, staged: seq<Staged<(string, string)>>, h: string, i: nat)
    requires HistoryInv(cfg, m, w, staged) && h in w.histories && i < |w.histories[h]|
    ensures AllAdmitted(m, CellHistory, EntryOps(cfg, staged, h, w.histories[h], i))
  {
    OpsForAdmitted(m, CellHistory, staged, (h, cfg.text(Get(w.histories[h][i], "timestamp"))));
  }

  lemma PreservedKeepsTimes(own: Slots, a: Work, b: Work, h: string)
    requires WorkPreserved(own, a, b) && h in a.histories
    ensures SameTimes(a.histories[h], b.histories[h])
  {
    forall i | 0 <= i < |a.histories[h]|
      ensures Get(a.histories[h][i], "timestamp") == Get(b.histories[h][i], "timestamp")
    {
      PreservedTime(own, a.histories[h][i], b.histories[h][i]);
    }
  }

  /** Other transactions stay ready when only owned slots change. */
  lemma PreservedKeepsReady(cfg: Config, own: Slots, a: Work, b: Work, m: Manifest, tx: Tx)
    requires WorkPreserved(own, a, b)
    requires CellsInv(m, a, tx.cells) && HistoryInv(cfg, m, a, tx.history)
    ensures CellsInv(m, b, tx.cells) && HistoryInv(cfg, m, b, tx.history)
  {
    forall i | 0 <= i < |tx.history|
      ensures FindEntry(cfg, b.histories[tx.history[i].key.0], tx.history[i].key.1).Some?
    {
      var (h, t) := tx.history[i].key;
      PreservedKeepsTimes(own, a, b, h);
      FindEntrySame(cfg, a.histories[h], b.histories[h], t);
    }
  }

  lemma CommitKeepsInv(cfg: Config, w: Work, id: string, receipt: Receipt)
    requires Inv(cfg, w)
    ensures Inv(cfg, Commit(cfg, w, id, receipt).work)
    ensures id in w.txs ==> WorkPreserved(SlotsOf(cfg.manifests[id]), w, Commit(cfg, w, id, receipt).work)
  {
    if id in w.txs {
      InvReady(cfg, w, id);
      var own := SlotsOf(cfg.manifests[id]);
      WorkPreservedReflexive(own, w);
      if !w.txs[id].sealed {
        CommitEffect(cfg, w, id, receipt);
        var after := Commit(cfg, w, id, receipt).work;
        if Commit(cfg, w, id, receipt).error.None? {
          WrittenPreserves(cfg, w, id, after);
          SealedKeepsInv(cfg, own, w, id, receipt, after);
        }
      }
    }
  }

  lemma SealedKeepsInv(cfg: Config, own: Slots, w: Work, id: string, receipt: Receipt, after: Work)
    requires Inv(cfg, w) && id in w.txs && WorkPreserved(own, w, after) && Shaped(cfg, after)
    requires after.txs == w.txs[id := w.txs[id].(sealed := true, receipt := Some(receipt))]
    ensures Inv(cfg, after)
  {
    forall other | other in after.txs ensures TxInv(cfg, cfg.manifests[other], after, after.txs[other]) {
      assert TxInv(cfg, cfg.manifests[other], w, w.txs[other]);
      PreservedKeepsReady(cfg, own, w, after, cfg.manifests[other], w.txs[other]);
    }
  }

  lemma WorkPreservedReflexive(own: Slots, w: Work)
    ensures WorkPreserved(own, w, w)
  {
    forall c | c in w.cells ensures Preserved(own, w.cells[c], w.cells[c]) {
      PreservedReflexive(own, w.cells[c]);
    }
    forall h, i | h in w.histories && 0 <= i < |w.histories[h]|
      ensures Preserved(own, w.histories[h][i], w.histories[h][i])
    {
      PreservedReflexive(own, w.histories[h][i]);
    }
  }

  lemma WorkPreservedTransitive(own: Slots, a: Work, b: Work, c: Work)
    requires WorkPreserved(own, a, b) && WorkPreserved(own, b, c)
    ensures WorkPreserved(own, a, c)
  {
    forall k | k in a.cells ensures Preserved(own, a.cells[k], c.cells[k]) {
      PreservedTransitive(own, a.cells[k], b.cells[k], c.cells[k]);
    }
    forall h, i | h in a.histories && 0 <= i < |a.histories[h]|
      ensures Preserved(own, a.histories[h][i], c.histories[h][i])
    {
      PreservedTransitive(own, a.histories[h][i], b.histories[h][i], c.histories[h][i]);
    }
  }

  lemma WorkPreservedWider(narrow: Slots, wide: Slots, a: Work, b: Work)
    requires WorkPreserved(narrow, a, b) && forall c, k :: narrow(c, k) ==> wide(c, k)
    ensures WorkPreserved(wide, a, b)
  {
    forall c | c in a.cells ensures Preserved(wide, a.cells[c], b.cells[c]) {
      PreservedWider(narrow, wide, a.cells[c], b.cells[c]);
    }
    forall h, i | h in a.histories && 0 <= i < |a.histories[h]|
      ensures Preserved(wide, a.histories[h][i], b.histories[h][i])
    {
      PreservedWider(narrow, wide, a.histories[h][i], b.histories[h][i]);
    }
  }

  // ---------- steps and runs ----------

  lemma StepKeepsInv(cfg: Config, w: Work, call: Call)
    requires Inv(cfg, w)
    ensures Inv(cfg, Step(cfg, w, call).work)
  {
    match call
    case CallStageCell(id, cell, revision, raws) => StageCellKeepsInv(cfg, w, id, cell, revision, raws);
    case CallStageHistory(id, cell, timestamp, revision, raws) =>
      StageHistoryKeepsInv(cfg, w, id, cell, timestamp, revision, raws);
    case CallStageAlert(id, payload) => StageAlertKeepsInv(cfg, w, id, payload);
    case CallStageRoute(id, route, json) => StageRouteKeepsInv(cfg, w, id, route, json);
    case CallAbandon(id) => AbandonKeepsInv(cfg, w, id);
    case CallValidate(id) =>
    case CallCommit(id, receipt) => CommitKeepsInv(cfg, w, id, receipt);
  }

  lemma AbandonKeepsInv(cfg: Config, w: Work, id: string)
    requires Inv(cfg, w)
    ensures Inv(cfg, Abandon(w, id).work)
  {
    if OpenError(w, id).None? {
      assert TxInv(cfg, cfg.manifests[id], w, w.txs[id]);
      PutKeepsInv(cfg, w, id, w.txs[id].(cells := [], history := [], alerts := [], routes := [], abandoned := true));
    }
  }

  ghost function Run(cfg: Config, w: Work, calls: seq<Call>): (r: Work)
    requires Inv(cfg, w)
    ensures Inv(cfg, r)
    decreases |calls|
  {
    if calls == [] then w
    else
      StepKeepsInv(cfg, w, calls[0]);
      Run(cfg, Step(cfg, w, calls[0]).work, calls[1..])
  }

  // ---------- host data over whole runs ----------

  /** The slots owned by some sealed module. */
  ghost function SealedSlots(cfg: Config, w: Work): Slots {
    (container: string, key: string) =>
      exists id :: id in w.txs && w.txs[id].sealed && id in cfg.manifests && Owns(cfg.manifests[id], container, key)
  }

  ghost predicate SealedIn(a: Work, b: Work) {
    a.txs.Keys == b.txs.Keys && forall id :: id in a.txs && a.txs[id].sealed ==> b.txs[id] == a.txs[id]
  }

  /** Nothing changes but the open transaction `id`, which stays unsealed. */
  ghost predicate OnlyOpenTx(w: Work, next: Work, id: string) {
    next == w
    || (OpenError(w, id).None? && id in next.txs && next == Put(w, id, next.txs[id]) && !next.txs[id].sealed)
  }

  /** Only a commit seals or writes entries, and only an open transaction is ever edited. */
  lemma StagingTouchesOnlyTx(cfg: Config, w: Work, call: Call)
    requires Inv(cfg, w) && !call.CallCommit?
    ensures OnlyOpenTx(w, Step(cfg, w, call).work, call.id)
  {
    match call
    case CallStageCell(_, cell, revision, raws) =>
    case CallStageHistory(_, cell, timestamp, revision, raws) =>
    case CallStageAlert(_, payload) =>
    case CallStageRoute(_, route, json) =>
    case CallAbandon(_) =>
    case CallValidate(_) =>
  }

  lemma StepSeals(cfg: Config, w: Work, call: Call)
    requires Inv(cfg, w)
    ensures SealedIn(w, Step(cfg, w, call).work)
  {
    if call.CallCommit? {
      CommitSeals(cfg, w, call.id, call.receipt);
    } else {
      StagingTouchesOnlyTx(cfg, w, call);
      TouchingSeals(w, Step(cfg, w, call).work, call.id);
    }
  }

  lemma TouchingSeals(w: Work, next: Work, id: string)
    requires OnlyOpenTx(w, next, id)
    ensures SealedIn(w, next)
  {
  }

  lemma CommitSeals(cfg: Config, w: Work, id: string, receipt: Receipt)
    requires Inv(cfg, w)
    ensures SealedIn(w, Commit(cfg, w, id, receipt).work)
  {
    if id in w.txs && !w.txs[id].sealed {
      InvReady(cfg, w, id);
      CommitEffect(cfg, w, id, receipt);
    }
  }

  lemma {:induction false} RunSeals(cfg: Config, w: Work, calls: seq<Call>)
    requires Inv(cfg, w)
    ensures SealedIn(w, Run(cfg, w, calls))
    decreases |calls|
  {
    if calls != [] {
      StepKeepsInv(cfg, w, calls[0]);
      StepSeals(cfg, w, calls[0]);
      RunSeals(cfg, Step(cfg, w, calls[0]).work, calls[1..]);
    }
  }

  lemma SameEntriesPreserved(own: Slots, w: Work, next: Work)
    requires next.cells == w.cells && next.histories == w.histories
    ensures WorkPreserved(own, w, next)
  {
    WorkPreservedReflexive(own, w);
  }

  lemma StepPreserves(cfg: Config, w: Work, call: Call)
    requires Inv(cfg, w)
    ensures var next := Step(cfg, w, call).work; WorkPreserved(SealedSlots(cfg, next), w, next)
  {
    if call.CallCommit? {
      AnyCommitPreserves(cfg, w, call.id, call.receipt);
    } else {
      StagingTouchesOnlyTx(cfg, w, call);
      TouchingPreserves(cfg, w, Step(cfg, w, call).work, call.id);
    }
  }

  lemma TouchingPreserves(cfg: Config, w: Work, next: Work, id: string)
    requires OnlyOpenTx(w, next, id)
    ensures WorkPreserved(SealedSlots(cfg, next), w, next)
  {
    SameEntriesPreserved(SealedSlots(cfg, next), w, next);
  }

  lemma AnyCommitPreserves(cfg: Config, w: Work, id: string, receipt: Receipt)
    requires Inv(cfg, w)
    ensures var next := Commit(cfg, w, id, receipt).work; WorkPreserved(SealedSlots(cfg, next), w, next)
  {
    if id in w.txs && !w.txs[id].sealed {
      CommitPreserves(cfg, w, id, receipt);
    } else {
      SameEntriesPreserved(SealedSlots(cfg, w), w, w);
    }
  }

  lemma CommitPreserves(cfg: Config, w: Work, id: string, receipt: Receipt)
    requires Inv(cfg, w) && id in w.txs && !w.txs[id].sealed
    ensures var next := Commit(cfg, w, id, receipt).work; WorkPreserved(SealedSlots(cfg, next), w, next)
  {
    var next := Commit(cfg, w, id, receipt).work;
    InvReady(cfg, w, id);
    CommitEffect(cfg, w, id, receipt);
    if Commit(cfg, w, id, receipt).error.Some? {
      WorkPreservedReflexive(SealedSlots(cfg, next), w);
    } else {
      CommitKeepsInv(cfg, w, id, receipt);
      forall c, k | SlotsOf(cfg.manifests[id])(c, k) ensures SealedSlots(cfg, next)(c, k) {
        assert id in next.txs && next.txs[id].sealed && Owns(cfg.manifests[id], c, k);
      }
      WorkPreservedWider(SlotsOf(cfg.manifests[id]), SealedSlots(cfg, next), w, next);
    }
  }

  lemma SealedSlotsGrow(cfg: Config, next: Work, last: Work, c: string, k: string)
    requires SealedIn(next, last) && SealedSlots(cfg, next)(c, k)
    ensures SealedSlots(cfg, last)(c, k)
  {
    var id :| id in next.txs && next.txs[id].sealed && id in cfg.manifests && Owns(cfg.manifests[id], c, k);
    assert id in last.txs && last.txs[id].sealed;
  }

  lemma WiderSeals(cfg: Config, w: Work, next: Work, last: Work)
    requires SealedIn(next, last) && WorkPreserved(SealedSlots(cfg, next), w, next)
    ensures WorkPreserved(SealedSlots(cfg, last), w, next)
  {
    forall c, k | SealedSlots(cfg, next)(c, k) ensures SealedSlots(cfg, last)(c, k) {
      SealedSlotsGrow(cfg, next, last, c, k);
    }
    WorkPreservedWider(SealedSlots(cfg, next), SealedSlots(cfg, last), w, next);
  }

  /**
   In every reachable state each cell and history entry equals its initial value outside
   `modules.<name>` and the declared `properties.<module_id>_*` keys of sealed modules.
   */
  lemma {:induction false} HostDataPreserved(cfg: Config, w: Work, calls: seq<Call>)
    requires Inv(cfg, w)
    ensures WorkPreserved(SealedSlots(cfg, Run(cfg, w, calls)), w, Run(cfg, w, calls))
    decreases |calls|
  {
    var last := Run(cfg, w, calls);
    if calls == [] {
      WorkPreservedReflexive(SealedSlots(cfg, last), w);
    } else {
      StepKeepsInv(cfg, w, calls[0]);
      var next := Step(cfg, w, calls[0]).work;
      StepPreserves(cfg, w, calls[0]);
      RunSeals(cfg, next, calls[1..]);
      WiderSeals(cfg, w, next, last);
      HostDataPreserved(cfg, next, calls[1..]);
      WorkPreservedTransitive(SealedSlots(cfg, last), w, next, last);
    }
  }
}
