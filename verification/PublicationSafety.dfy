/**
 Safety of the publication protocol over whole runs.

 `logical` is the state a reader is entitled to: the initial targets overwritten,
 in order, by every publication whose prepared journal reached the disk.
 */
module PublicationSafety {
  import opened Wrappers
  import opened Publication

  // ---------- part names ----------

  lemma PartPathIsPart(target: Path, txn: string)
    ensures IsPart(PartPath(target, txn))
  {
    var name := PartPath(target, txn).name;
    assert name == ("." + target.name + "." + txn) + PART_SUFFIX;
  }

  lemma PartPathInjective(a: Path, b: Path, txn: string)
    requires PartPath(a, txn) == PartPath(b, txn)
    ensures a == b
  {
    var na, nb := PartPath(a, txn).name, PartPath(b, txn).name;
    assert na == "." + a.name + ("." + txn + PART_SUFFIX);
    assert nb == "." + b.name + ("." + txn + PART_SUFFIX);
    assert |a.name| == |b.name|;
    assert na[1..1 + |a.name|] == a.name && nb[1..1 + |b.name|] == b.name;
  }

  // ---------- the invariant ----------

  /** Distinct targets, none of them named like a temporary part. */
  ghost predicate Hygienic(payloads: seq<Payload>) {
    && (forall i, j :: 0 <= i < j < |payloads| ==> payloads[i].target != payloads[j].target)
    && (forall i :: 0 <= i < |payloads| ==> !IsPart(payloads[i].target))
  }

  ghost function Targets(items: seq<Item>): set<Path> {
    set i | 0 <= i < |items| :: items[i].target
  }

  ghost function Pending(d: Disk): set<string> {
    set id | id in d.journals && d.journals[id].state.Prepared?
  }

  ghost predicate Holds(files: map<Path, Bytes>, logical: map<Path, Bytes>, p: Path) {
    (p in files <==> p in logical) && (p in files ==> files[p] == logical[p])
  }

  /** Outside `except`, every visible file is exactly the logical one. */
  ghost predicate Agrees(files: map<Path, Bytes>, logical: map<Path, Bytes>, except: set<Path>) {
    forall p :: !IsPart(p) && p !in except ==> Holds(files, logical, p)
  }

  /** The item can still be rolled forward: its payload is in the target or in the part. */
  ghost predicate ItemReady(env: Env, files: map<Path, Bytes>, logical: map<Path, Bytes>, txn: string, item: Item) {
    && !IsPart(item.target) && item.temporary == PartPath(item.target, txn)
    && item.target in logical && env.hash(logical[item.target]) == item.postHash && env.parses(logical[item.target])
    && (|| (item.target in files && files[item.target] == logical[item.target])
        || (item.temporary in files && files[item.temporary] == logical[item.target]))
  }

  ghost predicate Resumable(env: Env, files: map<Path, Bytes>, logical: map<Path, Bytes>, txn: string,
      items: seq<Item>) {
    && (forall i :: 0 <= i < |items| ==> ItemReady(env, files, logical, txn, items[i]))
    && Agrees(files, logical, Targets(items))
  }

  ghost predicate Inv(env: Env, d: Disk, logical: map<Path, Bytes>) {
    && (forall id :: id in d.journals ==> d.journals[id].txn == id)
    && (forall a, b :: a in Pending(d) && b in Pending(d) ==> a == b)
    && (Pending(d) == {} ==> Agrees(d.files, logical, {}))
    && (forall id :: id in Pending(d) ==> Resumable(env, d.files, logical, id, d.journals[id].items))
  }

  // ---------- installing and rolling forward ----------

  /** Moving one ready part into place keeps every item of the journal ready. */
  lemma MoveKeepsResumable(env: Env, d: Disk, logical: map<Path, Bytes>, txn: string, items: seq<Item>, k: nat)
    requires Resumable(env, d.files, logical, txn, items) && k < |items|
    requires items[k].temporary in d.files && d.files[items[k].temporary] == logical[items[k].target]
    ensures var s := Replace(d, items[k].temporary, items[k].target);
            && Resumable(env, s.disk.files, logical, txn, items)
            && (forall t :: t in Targets(items) && Holds(d.files, logical, t) ==> Holds(s.disk.files, logical, t))
            && (s.status.Ok? ==> Holds(s.disk.files, logical, items[k].target))
  {
    var item := items[k];
    var s := Replace(d, item.temporary, item.target);
    PartPathIsPart(item.target, txn);
    forall i | 0 <= i < |items|
      ensures ItemReady(env, s.disk.files, logical, txn, items[i])
    {
      PartPathIsPart(items[i].target, txn);
      if items[i].target != item.target && items[i].temporary == item.temporary {
        PartPathInjective(items[i].target, item.target, txn);
      }
    }
  }

  lemma RecoverItemSafe(env: Env, d: Disk, logical: map<Path, Bytes>, txn: string, items: seq<Item>, k: nat)
    requires Injective(env) && Resumable(env, d.files, logical, txn, items) && k < |items|
    ensures var s := RecoverItem(env, d, items[k]);
            && Resumable(env, s.disk.files, logical, txn, items)
            && (forall t :: t in Targets(items) && Holds(d.files, logical, t) ==> Holds(s.disk.files, logical, t))
            && (s.status.Ok? ==> Holds(s.disk.files, logical, items[k].target))
            && (s.status.Raised? ==> d.script != [] && !d.script[0].Done? && !d.script[0].Crash?)
  {
    assert ItemReady(env, d.files, logical, txn, items[k]);
    if HashOf(env, d.files, items[k].target) != Some(items[k].postHash) {
      MoveKeepsResumable(env, d, logical, txn, items, k);
    }
  }

  /** No step of the script fails in a way the process survives. */
  predicate NoErrors(script: seq<Outcome>) {
    forall o | o in script :: o.Done? || o.Crash?
  }

  lemma {:induction false} RecoverItemsSafe(
    env: Env, d: Disk, logical: map<Path, Bytes>, txn: string, items: seq<Item>, k: nat)
    requires Injective(env) && Resumable(env, d.files, logical, txn, items) && k <= |items|
    requires forall i :: 0 <= i < k ==> Holds(d.files, logical, items[i].target)
    ensures var s := RecoverItems(env, d, items[k..]);
            && Resumable(env, s.disk.files, logical, txn, items)
            && (s.status.Ok? ==> Agrees(s.disk.files, logical, {}))
            && (NoErrors(d.script) ==> !s.status.Raised? && NoErrors(s.disk.script))
    decreases |items| - k
  {
    if k == |items| {
      assert forall t :: t in Targets(items) ==> Holds(d.files, logical, t);
    } else {
      RecoverItemSafe(env, d, logical, txn, items, k);
      var s := RecoverItem(env, d, items[k]);
      assert items[k..][0] == items[k] && items[k..][1..] == items[k + 1..];
      if s.status.Ok? {
        forall i | 0 <= i < k + 1
          ensures Holds(s.disk.files, logical, items[i].target)
        {
          assert items[i].target in Targets(items);
        }
        RecoverItemsSafe(env, s.disk, logical, txn, items, k + 1);
      }
    }
  }

  lemma RollForwardSafe(env: Env, d: Disk, logical: map<Path, Bytes>, id: string, db: Database)
    requires Injective(env) && Inv(env, d, logical) && id in Pending(d)
    ensures var s := RollForward(env, d, id, db);
            && Inv(env, s.disk, logical) && s.disk.log == d.log && s.disk.quarantine == d.quarantine
            && (s.status.Ok? ==> Pending(s.disk) == {})
            && (NoErrors(d.script) && CycleCommitted(d.journals[id].dependency, db) ==>
                  !s.status.Raised? && NoErrors(s.disk.script))
            && (forall other :: other in s.disk.journals && s.disk.journals[other].state.Prepared? ==>
                  other in d.journals && s.disk.journals[other] == d.journals[other])
  {
    var items := d.journals[id].items;
    RecoverItemsSafe(env, d, logical, id, items, 0);
    RecoverItemsFrame(env, d, items);
    assert items[0..] == items;
    var s := RecoverItems(env, d, items);
    assert Pending(s.disk) == Pending(d);
    var w := RollForward(env, d, id, db);
    if w.disk.journals != d.journals {
      forall k ensures k !in Pending(w.disk) {
        assert k in Pending(w.disk) ==> k in Pending(d) && k != id;
      }
      assert Pending(w.disk) == {};
    }
  }

  /** No journal was given up on. */
  ghost predicate NothingQuarantined(before: seq<Event>, after: seq<Event>) {
    before <= after && forall i :: |before| <= i < |after| ==> !after[i].Quarantined?
  }

  lemma RecoverJournalSafe(env: Env, d: Disk, logical: map<Path, Bytes>, id: string, db: Database)
    requires Injective(env) && Inv(env, d, logical)
    ensures var r := RecoverJournal(env, d, id, db);
            && d.log <= r.disk.log
            && (NothingQuarantined(d.log, r.disk.log) ==>
                  && Inv(env, r.disk, logical)
                  && (r.status.Ok? ==> id !in Pending(r.disk))
                  && (forall other :: other in Pending(r.disk) ==>
                        other in Pending(d) && r.disk.journals[other] == d.journals[other]))
            && (NoErrors(d.script) && (id in Pending(d) ==> CycleCommitted(d.journals[id].dependency, db)) ==>
                  r.disk.log == d.log && NoErrors(r.disk.script) && !r.status.Raised?)
  {
    if id in Pending(d) {
      RollForwardSafe(env, d, logical, id, db);
      RollForwardKeepsJournal(env, d, id, db);
      var r := RecoverJournal(env, d, id, db);
      if r.disk.log != d.log {
        assert r.disk.log[|d.log|].Quarantined?;
      }
    }
  }

  /** Every pending journal's database cycle is committed. */
  ghost predicate Backed(d: Disk, db: Database) {
    forall id :: id in Pending(d) ==> CycleCommitted(d.journals[id].dependency, db)
  }

  /**
   Recovery, interrupted anywhere: unless a journal was quarantined the invariant
   survives, and a recovery that completes leaves exactly the logical state.
   Without I/O errors, and with the database cycle still committed, nothing is quarantined.
   */
  lemma {:induction false} RecoverSafe(env: Env, d: Disk, logical: map<Path, Bytes>, order: seq<string>, db: Database)
    requires Injective(env) && Inv(env, d, logical)
    ensures var r := Recover(env, d, order, db);
            && d.log <= r.disk.log
            && (NothingQuarantined(d.log, r.disk.log) ==>
                  && Inv(env, r.disk, logical)
                  && (r.status.Ok? ==> forall id :: id in order ==> id !in Pending(r.disk))
                  && (forall id :: id in Pending(r.disk) ==> id in Pending(d) && r.disk.journals[id] == d.journals[id]))
            && (NoErrors(d.script) && Backed(d, db) ==>
                  r.disk.log == d.log && NoErrors(r.disk.script) && !r.status.Raised?)
    decreases |order|
  {
    if order != [] {
      var one := RecoverJournal(env, d, order[0], db);
      RecoverJournalSafe(env, d, logical, order[0], db);
      if one.status.Ok? && NothingQuarantined(d.log, one.disk.log) {
        RecoverSafe(env, one.disk, logical, order[1..], db);
      } else if one.status.Ok? {
        RecoverLogGrows(env, one.disk, order[1..], db);
      }
    }
  }

  lemma {:induction false} RecoverLogGrows(env: Env, d: Disk, order: seq<string>, db: Database)
    ensures d.log <= Recover(env, d, order, db).disk.log
    decreases |order|
  {
    if order != [] {
      var one := RecoverJournal(env, d, order[0], db);
      JournalLogGrows(env, d, order[0], db);
      if one.status.Ok? {
        RecoverLogGrows(env, one.disk, order[1..], db);
      }
    }
  }

  lemma JournalLogGrows(env: Env, d: Disk, id: string, db: Database)
    ensures d.log <= RecoverJournal(env, d, id, db).disk.log
  {
    if id in d.journals && d.journals[id].state.Prepared? {
      RollForwardKeepsLog(env, d, id, db);
    }
  }

  lemma RollForwardKeepsLog(env: Env, d: Disk, id: string, db: Database)
    requires id in d.journals
    ensures RollForward(env, d, id, db).disk.log == d.log
  {
    RecoverItemsFrame(env, d, d.journals[id].items);
  }
}
