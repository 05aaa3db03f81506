/** What one commit does: its effect entry by entry, and that it is all or nothing. */
module WorkingSetCommit {
  import opened Wrappers
  import opened Json
  import opened Gate
  import opened Patch
  import opened WorkingSet

  // ---------- the invariant of one transaction ----------

  ghost predicate Distinct<K(!new)>(list: seq<Staged<K>>) {
    forall i, j :: 0 <= i < j < |list| ==> list[i].key != list[j].key
  }

  ghost predicate AllAdmitted(m: Manifest, resource: Resource, ops: seq<Op>) {
    forall i :: 0 <= i < |ops| ==> Admit(m, resource, Some(ops[i].path)).Success?
  }

  ghost predicate CellsInv(m: Manifest, w: Work, staged: seq<Staged<string>>) {
    && Distinct(staged)
    && forall i :: 0 <= i < |staged| ==> staged[i].key in w.cells && AllAdmitted(m, CurrentCells, staged[i].ops)
  }

  ghost predicate HistoryInv(cfg: Config, m: Manifest, w: Work, staged: seq<Staged<(string, string)>>) {
    && Distinct(staged)
    && forall i :: 0 <= i < |staged| ==>
         && staged[i].key.0 in w.histories
         && FindEntry(cfg, w.histories[staged[i].key.0], staged[i].key.1).Some?
         && AllAdmitted(m, CellHistory, staged[i].ops)
  }

  ghost function SlotsOf(m: Manifest): Slots {
    (container: string, key: string) => Owns(m, container, key)
  }

  lemma AdmittedWithin(m: Manifest, resource: Resource, ops: seq<Op>)
    requires AllAdmitted(m, resource, ops)
    ensures Within(SlotsOf(m), ops)
  {
    forall i | 0 <= i < |ops|
      ensures Segments(Some(ops[i].path)).Success?
      ensures var s := Segments(Some(ops[i].path)).value;
              |s| >= 2 && s[0] in CONTAINERS && SlotsOf(m)(s[0], s[1])
    {
      assert Admit(m, resource, Some(ops[i].path)).Success?;
    }
  }

  // ---------- looking staged keys up ----------

  lemma {:induction false} OpsForAbsent<K(!new)>(list: seq<Staged<K>>, key: K)
    requires !HasKey(list, key)
    ensures OpsFor(list, key) == []
    decreases |list|
  {
    if list != [] {
      assert list[0].key != key;
      assert !HasKey(list[1..], key) by {
        forall i | 0 <= i < |list[1..]| ensures list[1..][i].key != key {
          assert list[1..][i] == list[i + 1];
        }
      }
      OpsForAbsent(list[1..], key);
    }
  }

  lemma TailDistinct<K(!new)>(list: seq<Staged<K>>)
    requires Distinct(list) && list != []
    ensures Distinct(list[1..]) && !HasKey(list[1..], list[0].key)
  {
    forall i | 0 <= i < |list[1..]| ensures list[1..][i].key != list[0].key {
      assert list[1..][i] == list[i + 1];
    }
  }

  lemma {:induction false} FindEntrySame(cfg: Config, h1: seq<Object>, h2: seq<Object>, timestamp: string)
    requires |h1| == |h2|
    requires forall i :: 0 <= i < |h1| ==> Get(h1[i], "timestamp") == Get(h2[i], "timestamp")
    ensures FindEntry(cfg, h1, timestamp) == FindEntry(cfg, h2, timestamp)
  {
    FindEntryFirst(cfg, h1, timestamp);
    FindEntryFirst(cfg, h2, timestamp);
    assert forall i :: 0 <= i < |h1| ==> cfg.text(Get(h1[i], "timestamp")) == cfg.text(Get(h2[i], "timestamp"));
  }

  // ---------- the cells ----------

  ghost predicate CellsApply(w: Work, staged: seq<Staged<string>>) {
    forall c :: c in w.cells ==> Apply(w.cells[c], OpsFor(staged, c)).Success?
  }

  lemma {:induction false} ValidateCellsExact(m: Manifest, w: Work, staged: seq<Staged<string>>)
    requires CellsInv(m, w, staged)
    ensures ValidateCells(w, staged).None? <==> CellsApply(w, staged)
    decreases |staged|
  {
    if staged != [] {
      TailDistinct(staged);
      assert CellsInv(m, w, staged[1..]);
      ValidateCellsExact(m, w, staged[1..]);
      var key := staged[0].key;
      OpsForAbsent(staged[1..], key);
      forall c | c in w.cells && c != key ensures OpsFor(staged, c) == OpsFor(staged[1..], c) {}
      if CellsApply(w, staged) {
        assert Apply(w.cells[key], OpsFor(staged, key)).Success?;
        forall c | c in w.cells ensures Apply(w.cells[c], OpsFor(staged[1..], c)).Success? {
          assert Apply(w.cells[c], OpsFor(staged, c)).Success?;
        }
      }
      if ValidateCells(w, staged).None? {
        forall c | c in w.cells ensures Apply(w.cells[c], OpsFor(staged, c)).Success? {
          assert Apply(w.cells[c], OpsFor(staged[1..], c)).Success?;
        }
      }
    }
  }

  ghost predicate CellsWritten(before: Work, after: Work, staged: seq<Staged<string>>) {
    && after.cells.Keys == before.cells.Keys && after.cellRevisions.Keys == before.cellRevisions.Keys
    && (forall c :: c in before.cells ==> Apply(before.cells[c], OpsFor(staged, c)) == Success(after.cells[c]))
    && (forall c :: c in before.cellRevisions ==>
          after.cellRevisions[c] == before.cellRevisions[c] + if HasKey(staged, c) then 1 else 0)
  }

  function CellStep(w: Work, key: string, cell: Object): Work
    requires key in w.cellRevisions
  {
    w.(cells := w.cells[key := cell], cellRevisions := w.cellRevisions[key := w.cellRevisions[key] + 1])
  }

  lemma CellStepReady(m: Manifest, w: Work, staged: seq<Staged<string>>, cell: Object)
    requires CellsInv(m, w, staged) && CellsApply(w, staged) && staged != [] && w.cellRevisions.Keys == w.cells.Keys
    ensures var next := CellStep(w, staged[0].key, cell);
            CellsInv(m, next, staged[1..]) && CellsApply(next, staged[1..])
  {
    TailDistinct(staged);
    OpsForAbsent(staged[1..], staged[0].key);
    var next := CellStep(w, staged[0].key, cell);
    forall c | c in next.cells ensures Apply(next.cells[c], OpsFor(staged[1..], c)).Success? {
      assert Apply(w.cells[c], OpsFor(staged, c)).Success?;
    }
  }

  lemma CellsWrittenCons(m: Manifest, w: Work, staged: seq<Staged<string>>, cell: Object, after: Work)
    requires CellsInv(m, w, staged) && staged != [] && w.cellRevisions.Keys == w.cells.Keys
    requires Apply(w.cells[staged[0].key], staged[0].ops) == Success(cell)
    requires CellsWritten(CellStep(w, staged[0].key, cell), after, staged[1..])
    ensures CellsWritten(w, after, staged)
  {
    var key := staged[0].key;
    var next := CellStep(w, key, cell);
    TailDistinct(staged);
    OpsForAbsent(staged[1..], key);
    assert after.cells.Keys == w.cells.Keys;
    forall c | c in w.cells ensures Apply(w.cells[c], OpsFor(staged, c)) == Success(after.cells[c]) {
      assert Apply(next.cells[c], OpsFor(staged[1..], c)) == Success(after.cells[c]);
    }
    forall c | c in w.cellRevisions
      ensures after.cellRevisions[c] == w.cellRevisions[c] + if HasKey(staged, c) then 1 else 0
    {
      assert after.cellRevisions[c] == next.cellRevisions[c] + if HasKey(staged[1..], c) then 1 else 0;
      HasKeyCons(staged, c);
    }
  }

  lemma {:induction false} WriteCellsEffect(m: Manifest, w: Work, staged: seq<Staged<string>>)
    requires CellsInv(m, w, staged) && CellsApply(w, staged) && w.cellRevisions.Keys == w.cells.Keys
    ensures var r := WriteCells(w, staged);
            && r.error.None? && CellsWritten(w, r.work, staged)
            && r.work == w.(cells := r.work.cells, cellRevisions := r.work.cellRevisions)
    decreases |staged|
  {
    if staged == [] {
      assert forall c :: !HasKey(staged, c);
    } else {
      var key := staged[0].key;
      assert Apply(w.cells[key], OpsFor(staged, key)).Success?;
      var cell := Apply(w.cells[key], staged[0].ops).value;
      CellStepReady(m, w, staged, cell);
      WriteCellsEffect(m, CellStep(w, key, cell), staged[1..]);
      CellsWrittenCons(m, w, staged, cell, WriteCells(CellStep(w, key, cell), staged[1..]).work);
    }
  }

  lemma HasKeyCons<K(!new)>(list: seq<Staged<K>>, key: K)
    requires list != []
    ensures HasKey(list, key) <==> list[0].key == key || HasKey(list[1..], key)
  {
    if HasKey(list, key) && list[0].key != key {
      var i :| 0 <= i < |list| && list[i].key == key;
      assert list[1..][i - 1].key == key;
    }
    if HasKey(list[1..], key) {
      var i :| 0 <= i < |list[1..]| && list[1..][i].key == key;
      assert list[i + 1].key == key;
    }
  }

  // ---------- the histories ----------

  /** The operations that reach entry `i`: those staged under its timestamp, if it is the first such entry. */
  ghost function EntryOps(cfg: Config, staged: seq<Staged<(string, string)>>, cell: string, history: seq<Object>,
      i: nat): seq<Op>
    requires i < |history|
  {
    var timestamp := cfg.text(Get(history[i], "timestamp"));
    if FindEntry(cfg, history, timestamp) == Some(i) then OpsFor(staged, (cell, timestamp)) else []
  }

  ghost predicate HistoryApplies(cfg: Config, w: Work, staged: seq<Staged<(string, string)>>) {
    forall h, i :: h in w.histories && 0 <= i < |w.histories[h]| ==>
      Apply(w.histories[h][i], EntryOps(cfg, staged, h, w.histories[h], i)).Success?
  }

  /** The staged keys that belong to one cell's history. */
  function KeysOf(staged: seq<Staged<(string, string)>>, cell: string): nat
    decreases |staged|
  {
    if staged == [] then 0 else (if staged[0].key.0 == cell then 1 else 0) + KeysOf(staged[1..], cell)
  }

  /** Splitting the head off a staged history list. */
  lemma {:induction false} EntryOpsCons(
    cfg: Config, staged: seq<Staged<(string, string)>>, h: string, history: seq<Object>, i: nat)
    requires Distinct(staged) && staged != [] && i < |history|
    ensures var (cell, timestamp) := staged[0].key;
            if h == cell && FindEntry(cfg, history, timestamp) == Some(i)
            then EntryOps(cfg, staged, h, history, i) == staged[0].ops
                && EntryOps(cfg, staged[1..], h, history, i) == []
            else EntryOps(cfg, staged, h, history, i) == EntryOps(cfg, staged[1..], h, history, i)
  {
    TailDistinct(staged);
    OpsForAbsent(staged[1..], staged[0].key);
    var (cell, timestamp) := staged[0].key;
    assert staged[0].key == (cell, timestamp);
    if h == cell && FindEntry(cfg, history, timestamp) == Some(i) {
      FindEntryFirst(cfg, history, timestamp);
      assert cfg.text(Get(history[i], "timestamp")) == timestamp;
    }
  }

  lemma {:induction false} ValidateHistoryExact(cfg: Config, m: Manifest, w: Work,
      staged: seq<Staged<(string, string)>>)
    requires HistoryInv(cfg, m, w, staged) && w.historyRevisions.Keys == w.histories.Keys
    ensures ValidateHistory(cfg, w, staged).None? <==> HistoryApplies(cfg, w, staged)
    decreases |staged|
  {
    if staged == [] {
      forall h, i | h in w.histories && 0 <= i < |w.histories[h]|
        ensures EntryOps(cfg, staged, h, w.histories[h], i) == []
      {}
    } else {
      TailDistinct(staged);
      assert HistoryInv(cfg, m, w, staged[1..]);
      ValidateHistoryExact(cfg, m, w, staged[1..]);
      var (cell, timestamp) := staged[0].key;
      var n := FindEntry(cfg, w.histories[cell], timestamp).value;
      if HistoryApplies(cfg, w, staged) {
        EntryOpsCons(cfg, staged, cell, w.histories[cell], n);
        assert Apply(w.histories[cell][n], staged[0].ops).Success?;
        forall h, i | h in w.histories && 0 <= i < |w.histories[h]|
          ensures Apply(w.histories[h][i], EntryOps(cfg, staged[1..], h, w.histories[h], i)).Success?
        {
          EntryOpsCons(cfg, staged, h, w.histories[h], i);
          assert Apply(w.histories[h][i], EntryOps(cfg, staged, h, w.histories[h], i)).Success?;
        }
      }
      if ValidateHistory(cfg, w, staged).None? {
        forall h, i | h in w.histories && 0 <= i < |w.histories[h]|
          ensures Apply(w.histories[h][i], EntryOps(cfg, staged, h, w.histories[h], i)).Success?
        {
          EntryOpsCons(cfg, staged, h, w.histories[h], i);
          assert Apply(w.histories[h][i], EntryOps(cfg, staged[1..], h, w.histories[h], i)).Success?;
        }
      }
    }
  }

  /** Each entry of one history is the application of the operations that reach it. */
  ghost predicate EntriesWritten(
    cfg: Config, staged: seq<Staged<(string, string)>>, h: string, before: seq<Object>, after: seq<Object>)
  {
    && |after| == |before|
    && forall i :: 0 <= i < |before| ==> Apply(before[i], EntryOps(cfg, staged, h, before, i)) == Success(after[i])
  }

  ghost predicate HistoryWritten(cfg: Config, before: Work, after: Work, staged: seq<Staged<(string, string)>>) {
    && after.histories.Keys == before.histories.Keys && after.historyRevisions.Keys == before.historyRevisions.Keys
    && (forall h :: h in before.histories ==> EntriesWritten(cfg, staged, h, before.histories[h], after.histories[h]))
    && (forall h :: h in before.historyRevisions ==>
          after.historyRevisions[h] == before.historyRevisions[h] + KeysOf(staged, h))
  }

  ghost predicate SameTimes(a: seq<Object>, b: seq<Object>) {
    |a| == |b| && forall i :: 0 <= i < |a| ==> Get(a[i], "timestamp") == Get(b[i], "timestamp")
  }

  lemma EntryOpsSameTimes(cfg: Config, staged: seq<Staged<(string, string)>>, h: string, a: seq<Object>,
      b: seq<Object>, i: nat)
    requires SameTimes(a, b) && i < |a|
    ensures EntryOps(cfg, staged, h, a, i) == EntryOps(cfg, staged, h, b, i)
  {
    FindEntrySame(cfg, a, b, cfg.text(Get(a[i], "timestamp")));
  }

  lemma PreservedTime(own: Slots, a: Object, b: Object)
    requires Preserved(own, a, b)
    ensures Get(a, "timestamp") == Get(b, "timestamp")
  {
    assert "timestamp" !in CONTAINERS;
    assert SameKey(a, b, "timestamp");
  }

  function EntryStep(w: Work, cell: string, n: nat, entry: Object): Work
    requires cell in w.histories && n < |w.histories[cell]| && cell in w.historyRevisions
  {
    w.(histories := w.histories[cell := w.histories[cell][n := entry]],
       historyRevisions := w.historyRevisions[cell := w.historyRevisions[cell] + 1])
  }

  /** Writing one staged entry changes no timestamp, so every later key still selects its own entry. */
  lemma TailInv(cfg: Config, m: Manifest, w: Work, staged: seq<Staged<(string, string)>>, next: Work)
    requires HistoryInv(cfg, m, w, staged) && staged != [] && w.histories.Keys == next.histories.Keys
    requires forall h :: h in w.histories ==> SameTimes(w.histories[h], next.histories[h])
    ensures HistoryInv(cfg, m, next, staged[1..])
  {
    TailDistinct(staged);
    forall i | 0 <= i < |staged[1..]|
      ensures var s := staged[1..][i];
              s.key.0 in next.histories && FindEntry(cfg, next.histories[s.key.0], s.key.1).Some?
    {
      var s := staged[i + 1];
      FindEntrySame(cfg, w.histories[s.key.0], next.histories[s.key.0], s.key.1);
    }
  }

  lemma {:induction false} EntryStepReady(
    cfg: Config, m: Manifest, w: Work, staged: seq<Staged<(string, string)>>, n: nat, entry: Object)
    requires HistoryInv(cfg, m, w, staged) && HistoryApplies(cfg, w, staged) && staged != []
    requires w.historyRevisions.Keys == w.histories.Keys
    requires FindEntry(cfg, w.histories[staged[0].key.0], staged[0].key.1) == Some(n)
    requires Get(entry, "timestamp") == Get(w.histories[staged[0].key.0][n], "timestamp")
    ensures var next := EntryStep(w, staged[0].key.0, n, entry);
            && (forall h :: h in w.histories ==> SameTimes(w.histories[h], next.histories[h]))
            && HistoryInv(cfg, m, next, staged[1..]) && HistoryApplies(cfg, next, staged[1..])
  {
    TailDistinct(staged);
    var next := EntryStep(w, staged[0].key.0, n, entry);
    assert forall h :: h in w.histories ==> SameTimes(w.histories[h], next.histories[h]);
    TailInv(cfg, m, w, staged, next);
    forall h, i | h in next.histories && 0 <= i < |next.histories[h]|
      ensures Apply(next.histories[h][i], EntryOps(cfg, staged[1..], h, next.histories[h], i)).Success?
    {
      EntryOpsSameTimes(cfg, staged[1..], h, w.histories[h], next.histories[h], i);
      EntryOpsCons(cfg, staged, h, w.histories[h], i);
      assert Apply(w.histories[h][i], EntryOps(cfg, staged, h, w.histories[h], i)).Success?;
    }
  }

  lemma {:induction false} HistoryWrittenCons(
    cfg: Config, w: Work, staged: seq<Staged<(string, string)>>, n: nat, entry: Object, after: Work)
    requires Distinct(staged) && staged != [] && w.historyRevisions.Keys == w.histories.Keys
    requires staged[0].key.0 in w.histories
    requires FindEntry(cfg, w.histories[staged[0].key.0], staged[0].key.1) == Some(n)
    requires Get(entry, "timestamp") == Get(w.histories[staged[0].key.0][n], "timestamp")
    requires Apply(w.histories[staged[0].key.0][n], staged[0].ops) == Success(entry)
    requires HistoryWritten(cfg, EntryStep(w, staged[0].key.0, n, entry), after, staged[1..])
    ensures HistoryWritten(cfg, w, after, staged)
  {
    var next := EntryStep(w, staged[0].key.0, n, entry);
    assert after.histories.Keys == w.histories.Keys;
    forall h | h in w.historyRevisions ensures after.historyRevisions[h] == w.historyRevisions[h] + KeysOf(staged, h) {
      assert after.historyRevisions[h] == next.historyRevisions[h] + KeysOf(staged[1..], h);
    }
    forall h | h in w.histories ensures EntriesWritten(cfg, staged, h, w.histories[h], after.histories[h]) {
      EntryStepAt(w, staged[0].key.0, n, entry, h);
      assert EntriesWritten(cfg, staged[1..], h, next.histories[h], after.histories[h]);
      EntriesWrittenCons(cfg, staged, h, w.histories[h], next.histories[h], n, after.histories[h]);
    }
  }

  /** One written entry, seen from the history of any cell. */
  lemma EntryStepAt(w: Work, cell: string, n: nat, entry: Object, h: string)
    requires cell in w.histories && n < |w.histories[cell]| && cell in w.historyRevisions && h in w.histories
    requires Get(entry, "timestamp") == Get(w.histories[cell][n], "timestamp")
    ensures var before, next := w.histories[h], EntryStep(w, cell, n, entry).histories[h];
            && SameTimes(before, next)
            && (h == cell ==> next[n] == entry)
            && forall i :: 0 <= i < |before| ==> (h == cell && i == n) || next[i] == before[i]
  {
  }

  lemma {:induction false} EntriesWrittenCons(
    cfg: Config, staged: seq<Staged<(string, string)>>, h: string, history: seq<Object>, next: seq<Object>, n: nat,
        after: seq<Object>)
    requires Distinct(staged) && staged != [] && SameTimes(history, next)
    requires h == staged[0].key.0 ==>
               && FindEntry(cfg, history, staged[0].key.1) == Some(n)
               && Apply(history[n], staged[0].ops) == Success(next[n])
    requires forall i :: 0 <= i < |history| ==> (h == staged[0].key.0 && i == n) || next[i] == history[i]
    requires EntriesWritten(cfg, staged[1..], h, next, after)
    ensures EntriesWritten(cfg, staged, h, history, after)
  {
    forall i | 0 <= i < |history| ensures Apply(history[i], EntryOps(cfg, staged, h, history, i)) == Success(after[i]) {
      EntryWrittenCons(cfg, staged, h, history, next, n, i);
    }
  }

  /** One entry, before and after the head of the list is written. */
  lemma {:induction false} EntryWrittenCons(
    cfg: Config, staged: seq<Staged<(string, string)>>, h: string, history: seq<Object>, next: seq<Object>, n: nat,
        i: nat)
    requires Distinct(staged) && staged != [] && i < |history| && SameTimes(history, next)
    requires h == staged[0].key.0 ==>
               && FindEntry(cfg, history, staged[0].key.1) == Some(n)
               && Apply(history[n], staged[0].ops) == Success(next[n])
    requires (h == staged[0].key.0 && i == n) || next[i] == history[i]
    ensures Apply(history[i], EntryOps(cfg, staged, h, history, i))
        == Apply(next[i], EntryOps(cfg, staged[1..], h, next, i))
  {
    EntryOpsSameTimes(cfg, staged[1..], h, history, next, i);
    EntryOpsCons(cfg, staged, h, history, i);
  }

  lemma HeadApplies(cfg: Config, m: Manifest, w: Work, staged: seq<Staged<(string, string)>>)
    returns (n: nat, entry: Object)
    requires HistoryInv(cfg, m, w, staged) && HistoryApplies(cfg, w, staged) && staged != []
    requires w.historyRevisions.Keys == w.histories.Keys
    ensures FindEntry(cfg, w.histories[staged[0].key.0], staged[0].key.1) == Some(n)
    ensures Get(entry, "timestamp") == Get(w.histories[staged[0].key.0][n], "timestamp")
    ensures Apply(w.histories[staged[0].key.0][n], staged[0].ops) == Success(entry)
    ensures ApplyEntry(cfg, w, staged[0]) == Success(EntryStep(w, staged[0].key.0, n, entry))
  {
    var (cell, timestamp) := staged[0].key;
    var history := w.histories[cell];
    n := FindEntry(cfg, history, timestamp).value;
    EntryOpsCons(cfg, staged, cell, history, n);
    assert Apply(history[n], EntryOps(cfg, staged, cell, history, n)).Success?;
    entry := Apply(history[n], staged[0].ops).value;
    ApplyKeepsTime(m, history[n], staged[0].ops);
  }

  /** Admitted operations never touch an entry's timestamp. */
  lemma {:induction false} ApplyKeepsTime(m: Manifest, entry: Object, ops: seq<Op>)
    requires AllAdmitted(m, CellHistory, ops) && Apply(entry, ops).Success?
    ensures Get(Apply(entry, ops).value, "timestamp") == Get(entry, "timestamp")
  {
    AdmittedWithin(m, CellHistory, ops);
    ApplyPreserves(SlotsOf(m), entry, ops);
    PreservedTime(SlotsOf(m), entry, Apply(entry, ops).value);
  }

  lemma {:induction false} WriteHistoryEffect(cfg: Config, m: Manifest, w: Work, staged: seq<Staged<(string, string)>>)
    requires HistoryInv(cfg, m, w, staged) && HistoryApplies(cfg, w, staged)
    requires w.historyRevisions.Keys == w.histories.Keys
    ensures var r := WriteHistory(cfg, w, staged);
            && r.error.None? && HistoryWritten(cfg, w, r.work, staged)
            && r.work == w.(histories := r.work.histories, historyRevisions := r.work.historyRevisions)
    decreases |staged|
  {
    if staged == [] {
      forall h | h in w.histories ensures EntriesWritten(cfg, staged, h, w.histories[h], w.histories[h]) {}
    } else {
      var n, entry := HeadApplies(cfg, m, w, staged);
      EntryStepReady(cfg, m, w, staged, n, entry);
      var next := EntryStep(w, staged[0].key.0, n, entry);
      WriteHistoryEffect(cfg, m, next, staged[1..]);
      HistoryWrittenCons(cfg, w, staged, n, entry, WriteHistory(cfg, next, staged[1..]).work);
    }
  }

  // ---------- the whole commit ----------

  ghost predicate TxReady(cfg: Config, w: Work, id: string) {
    && id in w.txs && id in cfg.manifests
    && CellsInv(cfg.manifests[id], w, w.txs[id].cells)
    && HistoryInv(cfg, cfg.manifests[id], w, w.txs[id].history)
  }

  /** Can the transaction's operations be applied to the current state? */
  ghost predicate Applies(cfg: Config, w: Work, tx: Tx) {
    CellsApply(w, tx.cells) && HistoryApplies(cfg, w, tx.history)
  }

  lemma ValidateExact(cfg: Config, w: Work, id: string)
    requires Shaped(cfg, w) && TxReady(cfg, w, id)
    ensures Validate(cfg, w, id).None? <==> Applies(cfg, w, w.txs[id])
  {
    ValidateCellsExact(cfg.manifests[id], w, w.txs[id].cells);
    ValidateHistoryExact(cfg, cfg.manifests[id], w, w.txs[id].history);
  }

  /** `after` is `before` with the transaction's operations applied to every entry they reach. */
  ghost predicate Written(cfg: Config, before: Work, after: Work, tx: Tx) {
    CellsWritten(before, after, tx.cells) && HistoryWritten(cfg, before, after, tx.history)
  }

  /**
   Commit is all or nothing.  When some staged operation cannot be applied nothing
   changes at all.  When validation passes, the writing pass cannot fail, and every
   entry is exactly the application of the operations that reach it.
   */
  lemma CommitEffect(cfg: Config, w: Work, id: string, receipt: Receipt)
    requires Shaped(cfg, w) && TxReady(cfg, w, id) && !w.txs[id].sealed
    ensures var r := Commit(cfg, w, id, receipt);
            && (r.error.Some? <==> !Applies(cfg, w, w.txs[id]))
            && (r.error.Some? ==> r.work == w)
            && (r.error.None? ==>
                  && Written(cfg, w, r.work, w.txs[id])
                  && r.work.txs == w.txs[id := w.txs[id].(sealed := true, receipt := Some(receipt))])
  {
    ValidateExact(cfg, w, id);
    if Applies(cfg, w, w.txs[id]) {
      var tx, m := w.txs[id], cfg.manifests[id];
      WriteCellsEffect(m, w, tx.cells);
      var mid := WriteCells(w, tx.cells).work;
      assert HistoryInv(cfg, m, mid, tx.history) && HistoryApplies(cfg, mid, tx.history);
      WriteHistoryEffect(cfg, m, mid, tx.history);
    }
  }
}
