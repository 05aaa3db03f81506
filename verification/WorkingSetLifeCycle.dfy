/** The life cycle of transactions: revisions, sealing, abandoning, and what gets published. */
module WorkingSetLifeCycle {
  import opened Wrappers
  import opened Json
  import opened WorkingSet
  import opened WorkingSetCommit
  import opened WorkingSetRuns

  /** The admitted modules, each listed once. */
  ghost predicate ValidOrder(cfg: Config) {
    && (forall id :: id in cfg.order <==> id in cfg.manifests)
    && (forall i, j :: 0 <= i < j < |cfg.order| ==> cfg.order[i] != cfg.order[j])
  }

  ghost function CellShare(tx: Tx, cell: string): nat {
    if tx.sealed && HasKey(tx.cells, cell) then 1 else 0
  }

  ghost function HistoryShare(tx: Tx, cell: string): nat {
    if tx.sealed then KeysOf(tx.history, cell) else 0
  }

  /** The number of sealed transactions that staged under `cell`. */
  ghost function CellSeals(order: seq<string>, txs: map<string, Tx>, cell: string): nat
    decreases |order|
  {
    if order == [] then 0
    else (if order[0] in txs then CellShare(txs[order[0]], cell) else 0) + CellSeals(order[1..], txs, cell)
  }

  /** The number of history keys of `cell` over the sealed transactions. */
  ghost function HistorySeals(order: seq<string>, txs: map<string, Tx>, cell: string): nat
    decreases |order|
  {
    if order == [] then 0
    else (if order[0] in txs then HistoryShare(txs[order[0]], cell) else 0) + HistorySeals(order[1..], txs, cell)
  }

  ghost predicate Counted(cfg: Config, w: Work) {
    && (forall c :: c in w.cellRevisions ==> w.cellRevisions[c] == CellSeals(cfg.order, w.txs, c))
    && (forall h :: h in w.historyRevisions ==> w.historyRevisions[h] == HistorySeals(cfg.order, w.txs, h))
  }

  lemma {:induction false} SealsAbsent(order: seq<string>, txs: map<string, Tx>, id: string, tx: Tx, cell: string)
    requires id !in order
    ensures CellSeals(order, txs[id := tx], cell) == CellSeals(order, txs, cell)
    ensures HistorySeals(order, txs[id := tx], cell) == HistorySeals(order, txs, cell)
    decreases |order|
  {
    if order != [] {
      SealsAbsent(order[1..], txs, id, tx, cell);
    }
  }

  lemma {:induction false} SealsUpdate(order: seq<string>, txs: map<string, Tx>, id: string, tx: Tx, cell: string)
    requires id in order && id in txs && forall i, j :: 0 <= i < j < |order| ==> order[i] != order[j]
    ensures CellSeals(order, txs[id := tx], cell) + CellShare(txs[id], cell)
         == CellSeals(order, txs, cell) + CellShare(tx, cell)
    ensures HistorySeals(order, txs[id := tx], cell) + HistoryShare(txs[id], cell)
         == HistorySeals(order, txs, cell) + HistoryShare(tx, cell)
    decreases |order|
  {
    if order[0] == id {
      assert id !in order[1..];
      SealsAbsent(order[1..], txs, id, tx, cell);
    } else {
      assert id in order[1..];
      SealsUpdate(order[1..], txs, id, tx, cell);
    }
  }

  lemma {:induction false} SealsInitial(order: seq<string>, txs: map<string, Tx>, cell: string)
    requires forall id :: id in txs ==> !txs[id].sealed
    ensures CellSeals(order, txs, cell) == 0 && HistorySeals(order, txs, cell) == 0
    decreases |order|
  {
    if order != [] {
      SealsInitial(order[1..], txs, cell);
    }
  }

  lemma StepKeepsCount(cfg: Config, w: Work, call: Call)
    requires Inv(cfg, w) && ValidOrder(cfg) && Counted(cfg, w)
    ensures Counted(cfg, Step(cfg, w, call).work)
  {
    if call.CallCommit? {
      CommitKeepsCount(cfg, w, call.id, call.receipt);
    } else {
      StagingTouchesOnlyTx(cfg, w, call);
      TouchingKeepsCount(cfg, w, Step(cfg, w, call).work, call.id);
    }
  }

  lemma TouchingKeepsCount(cfg: Config, w: Work, next: Work, id: string)
    requires Inv(cfg, w) && ValidOrder(cfg) && Counted(cfg, w) && OnlyOpenTx(w, next, id)
    ensures Counted(cfg, next)
  {
    if next != w {
      forall c | c in w.cellRevisions ensures next.cellRevisions[c] == CellSeals(cfg.order, next.txs, c) {
        SealsUpdate(cfg.order, w.txs, id, next.txs[id], c);
      }
      forall h | h in w.historyRevisions ensures next.historyRevisions[h] == HistorySeals(cfg.order, next.txs, h) {
        SealsUpdate(cfg.order, w.txs, id, next.txs[id], h);
      }
    }
  }

  lemma CommitKeepsCount(cfg: Config, w: Work, id: string, receipt: Receipt)
    requires Inv(cfg, w) && ValidOrder(cfg) && Counted(cfg, w)
    ensures Counted(cfg, Commit(cfg, w, id, receipt).work)
  {
    if id in w.txs && !w.txs[id].sealed {
      InvReady(cfg, w, id);
      CommitEffect(cfg, w, id, receipt);
      if Commit(cfg, w, id, receipt).error.None? {
        WrittenKeepsCount(cfg, w, id, Commit(cfg, w, id, receipt).work);
      }
    }
  }

  lemma WrittenKeepsCount(cfg: Config, w: Work, id: string, next: Work)
    requires ValidOrder(cfg) && Counted(cfg, w) && id in cfg.order && id in w.txs && !w.txs[id].sealed
    requires Written(cfg, w, next, w.txs[id]) && id in next.txs
    requires next.txs == w.txs[id := next.txs[id]] && next.txs[id].sealed
    requires next.txs[id].cells == w.txs[id].cells && next.txs[id].history == w.txs[id].history
    ensures Counted(cfg, next)
  {
    forall c | c in next.cellRevisions ensures next.cellRevisions[c] == CellSeals(cfg.order, next.txs, c) {
      SealsUpdate(cfg.order, w.txs, id, next.txs[id], c);
    }
    forall h | h in next.historyRevisions ensures next.historyRevisions[h] == HistorySeals(cfg.order, next.txs, h) {
      SealsUpdate(cfg.order, w.txs, id, next.txs[id], h);
    }
  }

  /**
   In every reachable state a cell's revision is the number of sealed transactions that
   staged under it, and a history's revision the number of their staged entries.
   */
  lemma {:induction false} RevisionsCountSeals(cfg: Config, w: Work, calls: seq<Call>)
    requires Inv(cfg, w) && ValidOrder(cfg) && Counted(cfg, w)
    ensures Counted(cfg, Run(cfg, w, calls))
    decreases |calls|
  {
    if calls != [] {
      StepKeepsInv(cfg, w, calls[0]);
      StepKeepsCount(cfg, w, calls[0]);
      RevisionsCountSeals(cfg, Step(cfg, w, calls[0]).work, calls[1..]);
    }
  }

  lemma InitialCounted(cfg: Config, cells: map<string, Object>, histories: map<string, seq<Object>>)
    ensures Counted(cfg, Initial(cfg, cells, histories))
  {
    var w := Initial(cfg, cells, histories);
    forall c | c in w.cellRevisions ensures CellSeals(cfg.order, w.txs, c) == 0 {
      SealsInitial(cfg.order, w.txs, c);
    }
    forall h | h in w.historyRevisions ensures HistorySeals(cfg.order, w.txs, h) == 0 {
      SealsInitial(cfg.order, w.txs, h);
    }
  }

  // ---------- closed transactions ----------

  /** What a transaction still holds; a sealed one never changes, an abandoned one stays empty. */
  ghost predicate StaysClosed(before: Tx, after: Tx) {
    && (before.sealed ==> after == before)
    && (before.abandoned ==>
          after.abandoned && after.cells == [] && after.history == [] && after.alerts == [] && after.routes == [])
  }

  /** No call whatsoever adds to a transaction that was sealed or abandoned. */
  lemma {:induction false} ClosedNeverGrows(cfg: Config, w: Work, calls: seq<Call>, id: string)
    requires Inv(cfg, w) && id in w.txs
    ensures id in Run(cfg, w, calls).txs && StaysClosed(w.txs[id], Run(cfg, w, calls).txs[id])
    decreases |calls|
  {
    assert TxInv(cfg, cfg.manifests[id], w, w.txs[id]);
    if calls != [] {
      StepKeepsInv(cfg, w, calls[0]);
      var next := Step(cfg, w, calls[0]).work;
      StepSeals(cfg, w, calls[0]);
      StepStaysClosed(cfg, w, calls[0], id);
      ClosedNeverGrows(cfg, next, calls[1..], id);
    }
  }

  lemma StepStaysClosed(cfg: Config, w: Work, call: Call, id: string)
    requires Inv(cfg, w) && id in w.txs
    ensures id in Step(cfg, w, call).work.txs && StaysClosed(w.txs[id], Step(cfg, w, call).work.txs[id])
  {
    assert TxInv(cfg, cfg.manifests[id], w, w.txs[id]);
    if call.CallCommit? {
      CommitStaysClosed(cfg, w, call.id, call.receipt, id);
    } else {
      StagingTouchesOnlyTx(cfg, w, call);
    }
  }

  lemma CommitStaysClosed(cfg: Config, w: Work, which: string, receipt: Receipt, id: string)
    requires Inv(cfg, w) && id in w.txs
    ensures id in Commit(cfg, w, which, receipt).work.txs
    ensures StaysClosed(w.txs[id], Commit(cfg, w, which, receipt).work.txs[id])
  {
    assert TxInv(cfg, cfg.manifests[id], w, w.txs[id]);
    if which in w.txs && !w.txs[which].sealed {
      InvReady(cfg, w, which);
      CommitEffect(cfg, w, which, receipt);
    }
  }

  /** Committing an abandoned transaction succeeds, seals it, and changes no entry and no revision. */
  lemma CommitAbandoned(cfg: Config, w: Work, id: string, receipt: Receipt)
    requires Inv(cfg, w) && id in w.txs && w.txs[id].abandoned && !w.txs[id].sealed
    ensures Commit(cfg, w, id, receipt) == Reply(Put(w, id, w.txs[id].(sealed := true, receipt := Some(receipt))), None)
  {
    assert TxInv(cfg, cfg.manifests[id], w, w.txs[id]);
  }

  /** A second commit, under any key, changes nothing and reports no error. */
  lemma {:induction false} SecondCommitIsIdle(
    cfg: Config, w: Work, id: string, first: Receipt, calls: seq<Call>, second: Receipt)
    requires Inv(cfg, w) && id in w.txs && Commit(cfg, w, id, first).error.None?
    requires Inv(cfg, Commit(cfg, w, id, first).work)
    ensures var later := Run(cfg, Commit(cfg, w, id, first).work, calls);
            Commit(cfg, later, id, second) == Reply(later, None)
  {
    InvReady(cfg, w, id);
    if !w.txs[id].sealed {
      CommitEffect(cfg, w, id, first);
    }
    RunSeals(cfg, Commit(cfg, w, id, first).work, calls);
  }

  // ---------- publication ----------

  ghost predicate FromSealed(cfg: Config, w: Work, alert: Object) {
    exists id :: id in w.txs && w.txs[id].sealed && id in cfg.manifests && alert in w.txs[id].alerts
      && Get(alert, "source") == Some(Str(cfg.manifests[id].name))
      && cfg.text(Get(alert, "cell_id")) in w.cells
  }

  /** Exactly the alerts of sealed transactions are published, each under its module's own name. */
  lemma {:induction false} AlertsOnlyFromSealed(cfg: Config, w: Work, order: seq<string>, alert: Object)
    requires Inv(cfg, w)
    ensures alert in CommittedAlerts(order, w.txs) <==>
              exists id :: id in order && id in w.txs && w.txs[id].sealed && alert in w.txs[id].alerts
    ensures alert in CommittedAlerts(order, w.txs) ==> FromSealed(cfg, w, alert)
    decreases |order|
  {
    if order != [] {
      var id := order[0];
      AlertsOnlyFromSealed(cfg, w, order[1..], alert);
      if id in w.txs && w.txs[id].sealed && alert in w.txs[id].alerts {
        assert TxInv(cfg, cfg.manifests[id], w, w.txs[id]);
        var k :| 0 <= k < |w.txs[id].alerts| && w.txs[id].alerts[k] == alert;
      }
      assert forall other :: other in order <==> other == id || other in order[1..];
    }
  }

  /** Alerts are published in the order of the modules, and those of one module in the order in which it staged them. */
  lemma {:induction false} AlertsInOrder(txs: map<string, Tx>, xs: seq<string>, ys: seq<string>, id: string)
    ensures CommittedAlerts(xs + ys, txs) == CommittedAlerts(xs, txs) + CommittedAlerts(ys, txs)
    ensures CommittedAlerts([id], txs) == if id in txs && txs[id].sealed then txs[id].alerts else []
    decreases |xs|
  {
    assert [id][1..] == [];
    if xs == [] {
      assert xs + ys == ys;
    } else {
      assert (xs + ys)[1..] == xs[1..] + ys;
      AlertsInOrder(txs, xs[1..], ys, id);
    }
  }

  /** Every module's routes, staged or published, are declared and within the aggregate limit. */
  lemma {:induction false} RoutesWithinLimit(cfg: Config, w: Work, calls: seq<Call>, id: string)
    requires Inv(cfg, w) && id in w.txs
    ensures var last := Run(cfg, w, calls);
            && id in last.txs && RouteBytes(cfg, last.txs[id].routes) <= MAX_ROUTE_TOTAL_BYTES
            && (id in CommittedRoutes(last.txs) ==>
                  last.txs[id].sealed && RoutesInv(cfg, cfg.manifests[id], CommittedRoutes(last.txs)[id]))
  {
    RunSeals(cfg, w, calls);
    var last := Run(cfg, w, calls);
    assert TxInv(cfg, cfg.manifests[id], last, last.txs[id]);
  }
}
