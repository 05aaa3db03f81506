/** The commits of any number of different modules, in any order (src/EdgeWARN/ctam/transaction.py). */
module WorkingSetOrders {
  import opened Wrappers
  import opened Collections
  import opened Reordering
  import opened WorkingSet
  import opened WorkingSetRuns
  import opened WorkingSetCommute

  /** Each module commits under its own receipt. */
  function CommitStep(cfg: Config, receipts: string -> Receipt): (Work, string) -> Work {
    (w, id) => Commit(cfg, w, id, receipts(id)).work
  }

  function Commits(cfg: Config, receipts: string -> Receipt): (Work, string) -> bool {
    (w, id) => Commit(cfg, w, id, receipts(id)).error.None?
  }

  /** Modules with open transactions and pairwise disjoint slots. */
  ghost predicate OpenModules(cfg: Config, w: Work, ids: set<string>) {
    && Inv(cfg, w) && (forall id :: id in ids ==> id in w.txs && !w.txs[id].sealed)
    && forall a, b :: a in ids && b in ids && a != b ==> DisjointModules(cfg.manifests[a], cfg.manifests[b])
  }

  lemma OthersStayOpen(cfg: Config, w: Work, ids: set<string>, a: string, receipt: Receipt, next: Work)
    requires OpenModules(cfg, w, ids) && a in ids && next == Commit(cfg, w, a, receipt).work
    ensures OpenModules(cfg, next, ids - {a})
  {
    CommitKeepsInv(cfg, w, a, receipt);
    forall id | id in ids - {a} ensures id in next.txs && !next.txs[id].sealed {
      OtherStaysOpen(cfg, w, a, id, receipt, next);
    }
  }

  lemma OtherStaysOpen(cfg: Config, w: Work, a: string, b: string, receipt: Receipt, next: Work)
    requires OpenPair(cfg, w, a, b) && next == Commit(cfg, w, a, receipt).work
    ensures b in next.txs && !next.txs[b].sealed
  {
    AppliesAfterCommit(cfg, w, a, b, receipt);
  }

  lemma CommitsAreCommuting(cfg: Config, receipts: string -> Receipt)
    ensures Commuting(CommitStep(cfg, receipts), Commits(cfg, receipts), (w, ids) => OpenModules(cfg, w, ids))
  {
    var step, passes := CommitStep(cfg, receipts), Commits(cfg, receipts);
    forall w, ids, a | OpenModules(cfg, w, ids) && a in ids ensures OpenModules(cfg, step(w, a), ids - {a}) {
      OthersStayOpen(cfg, w, ids, a, receipts(a), step(w, a));
    }
    forall w, ids, a, b | OpenModules(cfg, w, ids) && a in ids && b in ids && a != b
      ensures step(step(w, a), b) == step(step(w, b), a)
      ensures passes(step(w, a), b) <==> passes(w, b)
    {
      PairCommutes(cfg, w, a, b, receipts);
    }
  }

  lemma PairCommutes(cfg: Config, w: Work, a: string, b: string, receipts: string -> Receipt)
    requires OpenPair(cfg, w, a, b)
    ensures var step, passes := CommitStep(cfg, receipts), Commits(cfg, receipts);
            && step(step(w, a), b) == step(step(w, b), a)
            && (passes(step(w, a), b) <==> passes(w, b))
  {
    CommitsCommute(cfg, w, a, b, receipts(a), receipts(b));
  }

  /**
   Any number of open modules with distinct names and no shared property key: whatever the
   order of their commits, the working set is the same in the end, and a module succeeds
   exactly if it would have succeeded alone.
   */
  lemma {:induction false} AnyOrder(cfg: Config, w: Work, p: seq<string>, q: seq<string>, receipts: string -> Receipt)
    requires OpenModules(cfg, w, Elements(p))
    requires NoDuplicates(p) && NoDuplicates(q) && Elements(p) == Elements(q)
    ensures var step, passes := CommitStep(cfg, receipts), Commits(cfg, receipts);
            && StepAll(step, w, p) == StepAll(step, w, q)
            && Passing(step, passes, w, p) == Passing(step, passes, w, q)
            && forall id :: id in Passing(step, passes, w, p) <==>
                 id in p && Commit(cfg, w, id, receipts(id)).error.None?
  {
    var step, passes := CommitStep(cfg, receipts), Commits(cfg, receipts);
    var open := (w: Work, ids: set<string>) => OpenModules(cfg, w, ids);
    CommitsAreCommuting(cfg, receipts);
    SameEnd(step, passes, open, w, p, q);
    PassingExact(step, passes, open, w, p);
    PassingExact(step, passes, open, w, q);
    assert forall id :: id in q <==> id in Elements(q);
  }
}
