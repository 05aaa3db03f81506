/** What every entry reads after a commit (src/EdgeWARN/ctam/transaction.py). */
module WorkingSetContents {
  import opened Wrappers
  import opened Json
  import opened Patch
  import opened PatchMeaning
  import opened WorkingSet
  import opened WorkingSetCommit
  import opened WorkingSetRuns

  /**
   After a commit every cell, and every history entry, reads at each path what the last of its module's operations that
   touches the path says, and as before where none does.
   */
  lemma CommitReads(cfg: Config, w: Work, id: string, receipt: Receipt)
    requires Inv(cfg, w) && id in w.txs && !w.txs[id].sealed && Commit(cfg, w, id, receipt).error.None?
    ensures var after, tx := Commit(cfg, w, id, receipt).work, w.txs[id];
            && after.cells.Keys == w.cells.Keys && after.histories.Keys == w.histories.Keys
            && (forall c :: c in w.cells ==> ReadsPatched(w.cells[c], after.cells[c], OpsFor(tx.cells, c)))
            && (forall h :: h in w.histories ==> |after.histories[h]| == |w.histories[h]|)
            && (forall h, i :: h in w.histories && 0 <= i < |w.histories[h]| ==>
                  ReadsPatched(w.histories[h][i], after.histories[h][i],
                               EntryOps(cfg, tx.history, h, w.histories[h], i)))
  {
    InvReady(cfg, w, id);
    CommitEffect(cfg, w, id, receipt);
    WrittenReads(cfg, w, Commit(cfg, w, id, receipt).work, w.txs[id]);
  }

  lemma WrittenReads(cfg: Config, w: Work, after: Work, tx: Tx)
    requires Written(cfg, w, after, tx)
    ensures forall c :: c in w.cells ==> ReadsPatched(w.cells[c], after.cells[c], OpsFor(tx.cells, c))
    ensures forall h :: h in w.histories ==> |after.histories[h]| == |w.histories[h]|
    ensures forall h, i :: h in w.histories && 0 <= i < |w.histories[h]| ==>
              ReadsPatched(w.histories[h][i], after.histories[h][i], EntryOps(cfg, tx.history, h, w.histories[h], i))
  {
    forall c | c in w.cells ensures ReadsPatched(w.cells[c], after.cells[c], OpsFor(tx.cells, c)) {
      assert Apply(w.cells[c], OpsFor(tx.cells, c)) == Success(after.cells[c]);
      ApplyReads(w.cells[c], OpsFor(tx.cells, c));
    }
    assert forall h :: h in w.histories ==> EntriesWritten(cfg, tx.history, h, w.histories[h], after.histories[h]);
    forall h, i | h in w.histories && 0 <= i < |w.histories[h]|
      ensures ReadsPatched(w.histories[h][i], after.histories[h][i], EntryOps(cfg, tx.history, h, w.histories[h], i))
    {
      ApplyReads(w.histories[h][i], EntryOps(cfg, tx.history, h, w.histories[h], i));
    }
  }
}
