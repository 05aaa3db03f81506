/** Commits of different modules commute and lose nothing. */
module WorkingSetCommute {
  import opened Wrappers
  import opened Json
  import opened Gate
  import opened Patch
  import opened WorkingSet
  import opened WorkingSetCommit
  import opened WorkingSetRuns

  /** Distinct display names and no property key declared by both. */
  ghost predicate DisjointModules(a: Manifest, b: Manifest) {
    && a.name != b.name
    && forall key :: DeclaredProperty(a, key) ==> !DeclaredProperty(b, key)
  }

  lemma DisjointModulesApart(a: Manifest, b: Manifest)
    requires DisjointModules(a, b)
    ensures Apart(SlotsOf(a), SlotsOf(b))
  {
    forall c, k | SlotsOf(a)(c, k) ensures !SlotsOf(b)(c, k) {
      assert Owns(a, c, k);
    }
  }

  // ---------- one entry ----------

  lemma {:induction false} CellCommutes(
    w: Work, m: Manifest, xs: seq<Staged<string>>, n: Manifest, ys: seq<Staged<string>>, c: string)
    requires CellsInv(m, w, xs) && CellsInv(n, w, ys) && Apart(SlotsOf(m), SlotsOf(n)) && c in w.cells
    ensures var e, p, q := w.cells[c], OpsFor(xs, c), OpsFor(ys, c);
            && (Apply(e, p).Success? ==> (Apply(e, q).Success? <==> Apply(Apply(e, p).value, q).Success?))
            && (Apply(e, p).Success? && Apply(e, q).Success? ==>
                  Apply(Apply(e, p).value, q) == Apply(Apply(e, q).value, p))
  {
    OpsForAdmitted(m, CurrentCells, xs, c);
    OpsForAdmitted(n, CurrentCells, ys, c);
    AdmittedWithin(m, CurrentCells, OpsFor(xs, c));
    AdmittedWithin(n, CurrentCells, OpsFor(ys, c));
    ApplyCommutes(SlotsOf(m), SlotsOf(n), w.cells[c], OpsFor(xs, c), OpsFor(ys, c));
  }

  lemma EntryCommutes(
    cfg: Config, w: Work, m: Manifest, xs: seq<Staged<(string, string)>>, n: Manifest,
        ys: seq<Staged<(string, string)>>,
    h: string, i: nat)
    requires HistoryInv(cfg, m, w, xs) && HistoryInv(cfg, n, w, ys) && Apart(SlotsOf(m), SlotsOf(n))
    requires h in w.histories && i < |w.histories[h]|
    ensures var e, p, q := w.histories[h][i], EntryOps(cfg, xs, h, w.histories[h], i),
        EntryOps(cfg, ys, h, w.histories[h], i);
            && (Apply(e, p).Success? ==> (Apply(e, q).Success? <==> Apply(Apply(e, p).value, q).Success?))
            && (Apply(e, p).Success? && Apply(e, q).Success? ==>
                  Apply(Apply(e, p).value, q) == Apply(Apply(e, q).value, p))
  {
    EntryOpsAdmitted(cfg, m, w, xs, h, i);
    EntryOpsAdmitted(cfg, n, w, ys, h, i);
    var p, q := EntryOps(cfg, xs, h, w.histories[h], i), EntryOps(cfg, ys, h, w.histories[h], i);
    AdmittedWithin(m, CellHistory, p);
    AdmittedWithin(n, CellHistory, q);
    ApplyCommutes(SlotsOf(m), SlotsOf(n), w.histories[h][i], p, q);
  }

  // ---------- whether the other commit succeeds ----------

  ghost predicate Foreign(cfg: Config, w: Work, a: string, b: string) {
    && TxReady(cfg, w, a) && TxReady(cfg, w, b) && a != b
    && Apart(SlotsOf(cfg.manifests[a]), SlotsOf(cfg.manifests[b]))
  }

  /** The state after `a` wrote: the same keys and the same entries under each timestamp. */
  lemma WrittenKeepsTimes(cfg: Config, w: Work, a: string, after: Work, h: string)
    requires TxReady(cfg, w, a) && Written(cfg, w, after, w.txs[a]) && h in w.histories
    ensures SameTimes(w.histories[h], after.histories[h])
  {
    WrittenPreserves(cfg, w, a, after);
    PreservedKeepsTimes(SlotsOf(cfg.manifests[a]), w, after, h);
  }

  ghost predicate KeepsTimes(w: Work, after: Work) {
    forall h :: h in w.histories ==> h in after.histories && SameTimes(w.histories[h], after.histories[h])
  }

  lemma WrittenKeepsAllTimes(cfg: Config, w: Work, a: string, after: Work)
    requires TxReady(cfg, w, a) && Written(cfg, w, after, w.txs[a])
    ensures KeepsTimes(w, after)
  {
    forall h | h in w.histories ensures SameTimes(w.histories[h], after.histories[h]) {
      WrittenKeepsTimes(cfg, w, a, after, h);
    }
  }

  lemma CellsApplyAfter(cfg: Config, w: Work, a: string, b: string, after: Work)
    requires Foreign(cfg, w, a, b) && Written(cfg, w, after, w.txs[a])
    ensures CellsApply(after, w.txs[b].cells) <==> CellsApply(w, w.txs[b].cells)
  {
    forall c | c in w.cells
      ensures Apply(after.cells[c], OpsFor(w.txs[b].cells, c)).Success? <==>
          Apply(w.cells[c], OpsFor(w.txs[b].cells, c)).Success?
    {
      CellCommutes(w, cfg.manifests[a], w.txs[a].cells, cfg.manifests[b], w.txs[b].cells, c);
      assert Apply(w.cells[c], OpsFor(w.txs[a].cells, c)) == Success(after.cells[c]);
    }
  }

  lemma HistoryAppliesAfter(cfg: Config, w: Work, a: string, b: string, after: Work)
    requires Foreign(cfg, w, a, b) && Written(cfg, w, after, w.txs[a])
    ensures HistoryApplies(cfg, after, w.txs[b].history) <==> HistoryApplies(cfg, w, w.txs[b].history)
  {
    var ys := w.txs[b].history;
    forall h, i | h in w.histories && 0 <= i < |w.histories[h]|
      ensures Apply(after.histories[h][i], EntryOps(cfg, ys, h, after.histories[h], i)).Success?
              <==> Apply(w.histories[h][i], EntryOps(cfg, ys, h, w.histories[h], i)).Success?
    {
      WrittenKeepsTimes(cfg, w, a, after, h);
      EntryOpsSameTimes(cfg, ys, h, w.histories[h], after.histories[h], i);
      EntryCommutes(cfg, w, cfg.manifests[a], w.txs[a].history, cfg.manifests[b], ys, h, i);
      assert Apply(w.histories[h][i], EntryOps(cfg, w.txs[a].history, h, w.histories[h], i))
          == Success(after.histories[h][i]);
    }
  }

  // ---------- the states after both ----------

  lemma CellAgrees(cfg: Config, w: Work, a: string, b: string, wa: Work, wab: Work, wb: Work, wba: Work, c: string)
    requires Foreign(cfg, w, a, b) && c in w.cells
    requires CellsWritten(w, wa, w.txs[a].cells) && CellsWritten(wa, wab, w.txs[b].cells)
    requires CellsWritten(w, wb, w.txs[b].cells) && CellsWritten(wb, wba, w.txs[a].cells)
    ensures wab.cells[c] == wba.cells[c]
  {
    CellCommutes(w, cfg.manifests[a], w.txs[a].cells, cfg.manifests[b], w.txs[b].cells, c);
    assert Apply(w.cells[c], OpsFor(w.txs[a].cells, c)) == Success(wa.cells[c]);
    assert Apply(w.cells[c], OpsFor(w.txs[b].cells, c)) == Success(wb.cells[c]);
  }

  lemma RevisionsAgree(w: Work, xs: seq<Staged<string>>, ys: seq<Staged<string>>, wa: Work, wab: Work, wb: Work,
      wba: Work)
    requires CellsWritten(w, wa, xs) && CellsWritten(wa, wab, ys)
    requires CellsWritten(w, wb, ys) && CellsWritten(wb, wba, xs)
    ensures wab.cellRevisions == wba.cellRevisions && wab.cells.Keys == wba.cells.Keys == w.cells.Keys
  {}

  lemma CellsAgree(cfg: Config, w: Work, a: string, b: string, wa: Work, wab: Work, wb: Work, wba: Work)
    requires Foreign(cfg, w, a, b)
    requires CellsWritten(w, wa, w.txs[a].cells) && CellsWritten(wa, wab, w.txs[b].cells)
    requires CellsWritten(w, wb, w.txs[b].cells) && CellsWritten(wb, wba, w.txs[a].cells)
    ensures wab.cells == wba.cells && wab.cellRevisions == wba.cellRevisions
  {
    RevisionsAgree(w, w.txs[a].cells, w.txs[b].cells, wa, wab, wb, wba);
    forall c | c in w.cells ensures wab.cells[c] == wba.cells[c] {
      CellAgrees(cfg, w, a, b, wa, wab, wb, wba, c);
    }
  }

  lemma EntryAgrees(
    cfg: Config, w: Work, a: string, b: string, wa: Work, wab: Work, wb: Work, wba: Work, h: string, i: nat)
    requires Foreign(cfg, w, a, b) && h in w.histories && i < |w.histories[h]|
    requires HistoryWritten(cfg, w, wa, w.txs[a].history) && HistoryWritten(cfg, wa, wab, w.txs[b].history)
    requires HistoryWritten(cfg, w, wb, w.txs[b].history) && HistoryWritten(cfg, wb, wba, w.txs[a].history)
    requires SameTimes(w.histories[h], wa.histories[h]) && SameTimes(w.histories[h], wb.histories[h])
    ensures wab.histories[h][i] == wba.histories[h][i]
  {
    var xs, ys := w.txs[a].history, w.txs[b].history;
    EntryOpsSameTimes(cfg, ys, h, w.histories[h], wa.histories[h], i);
    EntryOpsSameTimes(cfg, xs, h, w.histories[h], wb.histories[h], i);
    EntryCommutes(cfg, w, cfg.manifests[a], xs, cfg.manifests[b], ys, h, i);
    assert Apply(w.histories[h][i], EntryOps(cfg, xs, h, w.histories[h], i)) == Success(wa.histories[h][i]);
    assert Apply(w.histories[h][i], EntryOps(cfg, ys, h, w.histories[h], i)) == Success(wb.histories[h][i]);
    assert Apply(wa.histories[h][i], EntryOps(cfg, ys, h, wa.histories[h], i)) == Success(wab.histories[h][i]);
    assert Apply(wb.histories[h][i], EntryOps(cfg, xs, h, wb.histories[h], i)) == Success(wba.histories[h][i]);
  }

  lemma HistoriesAgree(cfg: Config, w: Work, a: string, b: string, wa: Work, wab: Work, wb: Work, wba: Work)
    requires Foreign(cfg, w, a, b)
    requires HistoryWritten(cfg, w, wa, w.txs[a].history) && HistoryWritten(cfg, wa, wab, w.txs[b].history)
    requires HistoryWritten(cfg, w, wb, w.txs[b].history) && HistoryWritten(cfg, wb, wba, w.txs[a].history)
    requires KeepsTimes(w, wa) && KeepsTimes(w, wb)
    ensures wab.histories == wba.histories && wab.historyRevisions == wba.historyRevisions
  {
    forall h | h in w.histories ensures wab.histories[h] == wba.histories[h] {
      forall i | 0 <= i < |w.histories[h]| ensures wab.histories[h][i] == wba.histories[h][i] {
        EntryAgrees(cfg, w, a, b, wa, wab, wb, wba, h, i);
      }
    }
    HistoryRevisionsAgree(cfg, w, w.txs[a].history, w.txs[b].history, wa, wab, wb, wba);
  }

  lemma HistoryRevisionsAgree(
    cfg: Config, w: Work, xs: seq<Staged<(string, string)>>, ys: seq<Staged<(string, string)>>, wa: Work, wab: Work,
    wb: Work, wba: Work)
    requires HistoryWritten(cfg, w, wa, xs) && HistoryWritten(cfg, wa, wab, ys)
    requires HistoryWritten(cfg, w, wb, ys) && HistoryWritten(cfg, wb, wba, xs)
    ensures wab.historyRevisions == wba.historyRevisions
  {
    forall h | h in w.historyRevisions ensures wab.historyRevisions[h] == wba.historyRevisions[h] {
      assert wab.historyRevisions[h] == wa.historyRevisions[h] + KeysOf(ys, h);
      assert wba.historyRevisions[h] == wb.historyRevisions[h] + KeysOf(xs, h);
    }
  }

  // ---------- commits ----------

  ghost predicate OpenPair(cfg: Config, w: Work, a: string, b: string) {
    && Inv(cfg, w) && a in w.txs && b in w.txs && a != b && !w.txs[a].sealed && !w.txs[b].sealed
    && DisjointModules(cfg.manifests[a], cfg.manifests[b])
  }

  lemma OpenPairForeign(cfg: Config, w: Work, a: string, b: string)
    requires OpenPair(cfg, w, a, b)
    ensures Foreign(cfg, w, a, b) && Foreign(cfg, w, b, a)
  {
    InvReady(cfg, w, a);
    InvReady(cfg, w, b);
    DisjointModulesApart(cfg.manifests[a], cfg.manifests[b]);
  }

  lemma Verdict(cfg: Config, w: Work, id: string, receipt: Receipt)
    requires Inv(cfg, w) && id in w.txs && !w.txs[id].sealed
    ensures Commit(cfg, w, id, receipt).error.None? <==> Applies(cfg, w, w.txs[id])
    ensures Commit(cfg, w, id, receipt).error.Some? ==> Commit(cfg, w, id, receipt).work == w
  {
    InvReady(cfg, w, id);
    CommitEffect(cfg, w, id, receipt);
  }

  function SealedWith(tx: Tx, receipt: Receipt): Tx {
    tx.(sealed := true, receipt := Some(receipt))
  }

  lemma CommitWrites(cfg: Config, w: Work, id: string, receipt: Receipt) returns (next: Work)
    requires Inv(cfg, w) && id in w.txs && !w.txs[id].sealed && Commit(cfg, w, id, receipt).error.None?
    ensures next == Commit(cfg, w, id, receipt).work && Inv(cfg, next)
    ensures Written(cfg, w, next, w.txs[id]) && next.txs == w.txs[id := SealedWith(w.txs[id], receipt)]
  {
    next := Commit(cfg, w, id, receipt).work;
    InvReady(cfg, w, id);
    CommitEffect(cfg, w, id, receipt);
    CommitKeepsInv(cfg, w, id, receipt);
  }

  /** After one commit, the other module's operations apply exactly when they applied before. */
  lemma AppliesAfterCommit(cfg: Config, w: Work, a: string, b: string, receipt: Receipt)
    requires OpenPair(cfg, w, a, b)
    ensures var next := Commit(cfg, w, a, receipt).work;
            && Inv(cfg, next) && b in next.txs && next.txs[b] == w.txs[b]
            && (Applies(cfg, next, w.txs[b]) <==> Applies(cfg, w, w.txs[b]))
  {
    Verdict(cfg, w, a, receipt);
    if Commit(cfg, w, a, receipt).error.None? {
      var next := CommitWrites(cfg, w, a, receipt);
      OpenPairForeign(cfg, w, a, b);
      CellsApplyAfter(cfg, w, a, b, next);
      HistoryAppliesAfter(cfg, w, a, b, next);
    }
  }

  /** Whether `b` commits does not depend on whether `a` committed before it. */
  lemma SameVerdict(cfg: Config, w: Work, a: string, b: string, ra: Receipt, rb: Receipt)
    requires OpenPair(cfg, w, a, b)
    ensures var next := Commit(cfg, w, a, ra).work;
            && (Commit(cfg, next, b, rb).error.None? <==> Commit(cfg, w, b, rb).error.None?)
            && (Commit(cfg, next, b, rb).error.Some? ==> Commit(cfg, next, b, rb).work == next)
  {
    AppliesAfterCommit(cfg, w, a, b, ra);
    Verdict(cfg, w, b, rb);
    Verdict(cfg, Commit(cfg, w, a, ra).work, b, rb);
  }

  /** The state after `a` and then `b`, as two writing passes. */
  lemma CommitTwice(cfg: Config, w: Work, a: string, b: string, ra: Receipt, rb: Receipt)
    returns (mid: Work, last: Work)
    requires OpenPair(cfg, w, a, b)
    requires Commit(cfg, w, a, ra).error.None? && Commit(cfg, w, b, rb).error.None?
    ensures Written(cfg, w, mid, w.txs[a]) && Written(cfg, mid, last, w.txs[b]) && KeepsTimes(w, mid)
    ensures last.txs == w.txs[a := SealedWith(w.txs[a], ra)][b := SealedWith(w.txs[b], rb)]
    ensures last == Commit(cfg, Commit(cfg, w, a, ra).work, b, rb).work
  {
    SameVerdict(cfg, w, a, b, ra, rb);
    mid := CommitWrites(cfg, w, a, ra);
    InvReady(cfg, w, a);
    WrittenKeepsAllTimes(cfg, w, a, mid);
    last := CommitWrites(cfg, mid, b, rb);
  }

  lemma BothWritten(cfg: Config, w: Work, a: string, b: string, wa: Work, wb: Work, wab: Work, wba: Work)
    requires Foreign(cfg, w, a, b) && KeepsTimes(w, wa) && KeepsTimes(w, wb)
    requires Written(cfg, w, wa, w.txs[a]) && Written(cfg, wa, wab, w.txs[b])
    requires Written(cfg, w, wb, w.txs[b]) && Written(cfg, wb, wba, w.txs[a])
    requires wab.txs == wba.txs
    ensures wab == wba
  {
    CellsAgree(cfg, w, a, b, wa, wab, wb, wba);
    HistoriesAgree(cfg, w, a, b, wa, wab, wb, wba);
  }

  lemma UpdatesSwap(txs: map<string, Tx>, a: string, b: string, ta: Tx, tb: Tx)
    requires a != b
    ensures txs[a := ta][b := tb] == txs[b := tb][a := ta]
  {}

  lemma SameState(cfg: Config, w: Work, a: string, b: string, ra: Receipt, rb: Receipt)
    requires OpenPair(cfg, w, a, b)
    requires Commit(cfg, w, a, ra).error.None? && Commit(cfg, w, b, rb).error.None?
    ensures Commit(cfg, Commit(cfg, w, a, ra).work, b, rb).work == Commit(cfg, Commit(cfg, w, b, rb).work, a, ra).work
  {
    var wa, wab := CommitTwice(cfg, w, a, b, ra, rb);
    var wb, wba := CommitTwice(cfg, w, b, a, rb, ra);
    OpenPairForeign(cfg, w, a, b);
    var ta, tb := SealedWith(w.txs[a], ra), SealedWith(w.txs[b], rb);
    UpdatesSwap(w.txs, a, b, ta, tb);
    BothWritten(cfg, w, a, b, wa, wb, wab, wba);
  }

  /**
   Two modules with distinct names and no shared property key: both commit orders give
   the same working set, and each module succeeds or fails alike whether it commits
   first or second.
   */
  lemma CommitsCommute(cfg: Config, w: Work, a: string, b: string, ra: Receipt, rb: Receipt)
    requires Inv(cfg, w) && a in w.txs && b in w.txs && a != b && !w.txs[a].sealed && !w.txs[b].sealed
    requires DisjointModules(cfg.manifests[a], cfg.manifests[b])
    ensures var wa, wb := Commit(cfg, w, a, ra), Commit(cfg, w, b, rb);
            var wab, wba := Commit(cfg, wa.work, b, rb), Commit(cfg, wb.work, a, ra);
            && wab.work == wba.work
            && (wa.error.None? <==> wba.error.None?)
            && (wb.error.None? <==> wab.error.None?)
  {
    assert OpenPair(cfg, w, a, b) && OpenPair(cfg, w, b, a);
    SameVerdict(cfg, w, a, b, ra, rb);
    SameVerdict(cfg, w, b, a, rb, ra);
    Verdict(cfg, w, a, ra);
    Verdict(cfg, w, b, rb);
    if Commit(cfg, w, a, ra).error.None? && Commit(cfg, w, b, rb).error.None? {
      SameState(cfg, w, a, b, ra, rb);
    }
  }

  /** The slot reads the same before and after: the same value or absence of the key in an object, the same value where
      the container is no object, and where there was no container at most a new object without the key. */
  ghost predicate KeepsSlot(before: Object, after: Object, container: string, key: string) {
    if container !in before then
      container in after ==> after[container].Obj? && key !in after[container].fields
    else
      && container in after
      && if before[container].Obj?
         then after[container].Obj? && SameKey(before[container].fields, after[container].fields, key)
         else after[container] == before[container]
  }

  lemma PreservedElsewhere(p: Slots, q: Slots, before: Object, after: Object, container: string, key: string)
    requires Apart(p, q) && Preserved(p, before, after) && q(container, key) && container in CONTAINERS
    ensures KeepsSlot(before, after, container, key)
  {
    assert !p(container, key);
    assert ContainerPreserved(p, container, Get(before, container), Get(after, container));
  }

  /** Neither commit touches a slot of the other module, in any cell or any history entry. */
  lemma CommitLeavesOthersAlone(
    cfg: Config, w: Work, a: string, b: string, receipt: Receipt, container: string, key: string)
    requires Inv(cfg, w) && a in w.txs && b in w.txs && DisjointModules(cfg.manifests[a], cfg.manifests[b])
    requires Owns(cfg.manifests[b], container, key)
    ensures var after := Commit(cfg, w, a, receipt).work;
            && after.cells.Keys == w.cells.Keys && after.histories.Keys == w.histories.Keys
            && (forall c :: c in w.cells ==> KeepsSlot(w.cells[c], after.cells[c], container, key))
            && (forall h :: h in w.histories ==> |after.histories[h]| == |w.histories[h]|)
            && (forall h, i :: h in w.histories && 0 <= i < |w.histories[h]| ==>
                  KeepsSlot(w.histories[h][i], after.histories[h][i], container, key))
  {
    CommitKeepsInv(cfg, w, a, receipt);
    DisjointModulesApart(cfg.manifests[a], cfg.manifests[b]);
    var p, q := SlotsOf(cfg.manifests[a]), SlotsOf(cfg.manifests[b]);
    var after := Commit(cfg, w, a, receipt).work;
    assert q(container, key);
    forall c | c in w.cells ensures KeepsSlot(w.cells[c], after.cells[c], container, key) {
      PreservedElsewhere(p, q, w.cells[c], after.cells[c], container, key);
    }
    forall h, i | h in w.histories && 0 <= i < |w.histories[h]|
      ensures KeepsSlot(w.histories[h][i], after.histories[h][i], container, key)
    {
      PreservedElsewhere(p, q, w.histories[h][i], after.histories[h][i], container, key);
    }
  }
}
