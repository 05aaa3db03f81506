/** Exactly when one recovery completes a publication, and how it can fail to. */
module PublicationRecovery {
  import opened Wrappers
  import opened Publication
  import opened PublicationSafety
  import opened PublicationRuns

  /** With no uncommitted journal, recovery changes nothing: a second recovery is a no-op. */
  lemma {:induction false} RecoverNothing(env: Env, d: Disk, order: seq<string>, db: Database)
    requires Pending(d) == {}
    ensures Recover(env, d, order, db) == Recovery(d, Ok, [])
    decreases |order|
  {
    if order != [] {
      assert order[0] !in Pending(d);
      RecoverNothing(env, d, order[1..], db);
    }
  }

  // ---------- how many replacements are due, and whether they happen ----------

  /** The targets whose content does not have the hash that the journal recorded. */
  function Due(env: Env, files: map<Path, Bytes>, items: seq<Item>): nat {
    if items == [] then 0
    else (if HashOf(env, files, items[0].target) == Some(items[0].postHash) then 0 else 1) + Due(env, files, items[1..])
  }

  /** The first `n` steps of the script all take effect, and none before the last of them raises. */
  predicate Completes(script: seq<Outcome>, n: nat) {
    n == 0 || script == []
    || (if n == 1 then TakesEffect(script[0]) else script[0].Done? && Completes(script[1..], n - 1))
  }

  ghost predicate DistinctTargets(items: seq<Item>) {
    forall i, j :: 0 <= i < j < |items| ==> items[i].target != items[j].target
  }

  lemma {:induction false} DueFrame(env: Env, a: map<Path, Bytes>, b: map<Path, Bytes>, items: seq<Item>)
    requires forall i :: 0 <= i < |items| ==> HashOf(env, a, items[i].target) == HashOf(env, b, items[i].target)
    ensures Due(env, a, items) == Due(env, b, items)
  {
    if items != [] {
      DueFrame(env, a, b, items[1..]);
    }
  }

  /** Nothing is due exactly when every target of a ready journal holds its new content. */
  lemma {:induction false} DueExact(env: Env, files: map<Path, Bytes>, logical: map<Path, Bytes>, txn: string,
      items: seq<Item>)
    requires Injective(env) && forall i :: 0 <= i < |items| ==> ItemReady(env, files, logical, txn, items[i])
    ensures Due(env, files, items) == 0 <==> forall i :: 0 <= i < |items| ==> Holds(files, logical, items[i].target)
  {
    if items != [] {
      assert ItemReady(env, files, logical, txn, items[0]);
      DueExact(env, files, logical, txn, items[1..]);
      if forall i :: 0 <= i < |items[1..]| ==> Holds(files, logical, items[1..][i].target) {
        forall i | 1 <= i < |items| ensures Holds(files, logical, items[i].target) {
          assert items[1..][i - 1] == items[i];
        }
      }
    }
  }

  /** One due replacement: the target changes exactly when the step takes effect, and no other target does. */
  lemma ReplaceDue(env: Env, d: Disk, logical: map<Path, Bytes>, txn: string, item: Item, other: Item)
    requires Injective(env) && ItemReady(env, d.files, logical, txn, item)
    requires HashOf(env, d.files, item.target) != Some(item.postHash)
    ensures var s := RecoverItem(env, d, item);
            && s.disk.script == Tick(d).script && s.status == StatusOf(NextOutcome(d))
            && (TakesEffect(NextOutcome(d)) <==> HashOf(env, s.disk.files, item.target) == Some(item.postHash))
            && (!IsPart(other.target) && other.target != item.target ==>
                  HashOf(env, s.disk.files, other.target) == HashOf(env, d.files, other.target))
  {
    PartPathIsPart(item.target, txn);
  }

  /** After the items of one journal nothing is due exactly when nothing was, or the script completes the due ones. */
  lemma {:induction false} RecoverItemsExact(
    env: Env, d: Disk, logical: map<Path, Bytes>, txn: string, items: seq<Item>)
    requires Injective(env) && DistinctTargets(items)
    requires forall i :: 0 <= i < |items| ==> ItemReady(env, d.files, logical, txn, items[i])
    ensures var s, n := RecoverItems(env, d, items), Due(env, d.files, items);
            !s.status.Died? ==> (Due(env, s.disk.files, items) == 0 <==> Completes(d.script, n))
    decreases |items|
  {
    if items != [] {
      var item, rest := items[0], items[1..];
      var one := RecoverItem(env, d, item);
      if HashOf(env, d.files, item.target) == Some(item.postHash) {
        RecoverItemsExact(env, d, logical, txn, rest);
        KeepsInstalled(env, d, logical, txn, item, rest);
      } else {
        ReplaceDue(env, d, logical, txn, item, item);
        RestAsDue(env, d, logical, txn, items);
        if one.status.Ok? {
          StillReady(env, d, logical, txn, items);
          RecoverItemsExact(env, one.disk, logical, txn, rest);
          KeepsInstalled(env, one.disk, logical, txn, item, rest);
        }
      }
    }
  }

  /** As many of the other items are due when one due item has been replaced. */
  lemma {:induction false} RestAsDue(env: Env, d: Disk, logical: map<Path, Bytes>, txn: string, items: seq<Item>)
    requires Injective(env) && DistinctTargets(items) && items != []
    requires forall i :: 0 <= i < |items| ==> ItemReady(env, d.files, logical, txn, items[i])
    requires HashOf(env, d.files, items[0].target) != Some(items[0].postHash)
    ensures Due(env, RecoverItem(env, d, items[0]).disk.files, items[1..]) == Due(env, d.files, items[1..])
  {
    var files, rest := RecoverItem(env, d, items[0]).disk.files, items[1..];
    forall i | 0 <= i < |rest| ensures HashOf(env, files, rest[i].target) == HashOf(env, d.files, rest[i].target) {
      assert rest[i] == items[i + 1];
      assert ItemReady(env, d.files, logical, txn, items[i + 1]);
      ReplaceDue(env, d, logical, txn, items[0], rest[i]);
    }
    DueFrame(env, files, d.files, rest);
  }

  /** The other items stay ready when one due item is replaced. */
  lemma StillReady(env: Env, d: Disk, logical: map<Path, Bytes>, txn: string, items: seq<Item>)
    requires Injective(env) && DistinctTargets(items) && items != []
    requires forall i :: 0 <= i < |items| ==> ItemReady(env, d.files, logical, txn, items[i])
    ensures forall i :: 0 <= i < |items[1..]| ==>
              ItemReady(env, RecoverItem(env, d, items[0]).disk.files, logical, txn, items[1..][i])
  {
    var files := RecoverItem(env, d, items[0]).disk.files;
    PartPathIsPart(items[0].target, txn);
    forall i | 1 <= i < |items| ensures ItemReady(env, files, logical, txn, items[i]) {
      PartPathIsPart(items[i].target, txn);
      if items[i].temporary == items[0].temporary {
        PartPathInjective(items[i].target, items[0].target, txn);
      }
    }
    assert forall i :: 0 <= i < |items[1..]| ==> items[1..][i] == items[i + 1];
  }

  /** Recovering further items leaves another target as it is. */
  lemma {:induction false} KeepsInstalled(
    env: Env, d: Disk, logical: map<Path, Bytes>, txn: string, item: Item, items: seq<Item>)
    requires Injective(env) && !IsPart(item.target)
    requires forall i :: 0 <= i < |items| ==> ItemReady(env, d.files, logical, txn, items[i])
    requires forall i :: 0 <= i < |items| ==> items[i].target != item.target
    requires DistinctTargets(items)
    ensures HashOf(env, RecoverItems(env, d, items).disk.files, item.target) == HashOf(env, d.files, item.target)
    decreases |items|
  {
    if items != [] {
      var one := RecoverItem(env, d, items[0]);
      if HashOf(env, d.files, items[0].target) != Some(items[0].postHash) {
        ReplaceDue(env, d, logical, txn, items[0], item);
        StillReady(env, d, logical, txn, items);
      }
      if one.status.Ok? {
        KeepsInstalled(env, one.disk, logical, txn, item, items[1..]);
      }
    }
  }

  // ---------- the exact condition ----------

  /** Recovery can finish: nothing is due, or the cycle is committed and the due replacements all happen. */
  predicate CanFinish(env: Env, d: Disk, journal: Journal, db: Database) {
    var n := Due(env, d.files, journal.items);
    n == 0 || (CycleCommitted(journal.dependency, db) && Completes(d.script, n))
  }

  /** The targets agree with the logical state exactly when nothing is due. */
  lemma {:induction false} AgreesIffNothingDue(
    env: Env, files: map<Path, Bytes>, logical: map<Path, Bytes>, txn: string, items: seq<Item>)
    requires Injective(env) && Resumable(env, files, logical, txn, items)
    ensures Agrees(files, logical, {}) <==> Due(env, files, items) == 0
  {
    DueExact(env, files, logical, txn, items);
    if Due(env, files, items) == 0 {
      forall p | !IsPart(p) ensures Holds(files, logical, p) {
        if p in Targets(items) {
          var i :| 0 <= i < |items| && items[i].target == p;
          assert Holds(files, logical, items[i].target);
        }
      }
    } else {
      var i :| 0 <= i < |items| && !Holds(files, logical, items[i].target);
      assert ItemReady(env, files, logical, txn, items[i]);
    }
  }

  lemma RollForwardExact(env: Env, d: Disk, logical: map<Path, Bytes>, id: string, db: Database)
    requires Injective(env) && Inv(env, d, logical) && id in Pending(d) && DistinctTargets(d.journals[id].items)
    ensures var s := RollForward(env, d, id, db);
            !s.status.Died? ==> (Agrees(s.disk.files, logical, {}) <==> CanFinish(env, d, d.journals[id], db))
  {
    var items := d.journals[id].items;
    AgreesIffNothingDue(env, d.files, logical, id, items);
    if CycleCommitted(d.journals[id].dependency, db) {
      var s := RecoverItems(env, d, items);
      RecoverItemsSafe(env, d, logical, id, items, 0);
      assert items[0..] == items;
      RecoverItemsExact(env, d, logical, id, items);
      AgreesIffNothingDue(env, s.disk.files, logical, id, items);
    }
  }

  /**
   What one recovery that runs to its end makes of an open journal, whatever I/O errors it survives.  The files are the
   complete publication if and only if nothing was due, or the database cycle is still committed and every due
   replacement takes effect with none before the last raising.  The journal is closed or quarantined either way, and
   without a committed cycle no file changes.  With no error ahead recovery does run to its end.
   */
  lemma {:induction false} RecoverExact(
    env: Env, d: Disk, logical: map<Path, Bytes>, id: string, order: seq<string>, db: Database)
    requires Injective(env) && Inv(env, d, logical) && Pending(d) == {id} && id in order
    requires DistinctTargets(d.journals[id].items)
    ensures var r := Recover(env, d, order, db);
            && (r.status.Ok? ==>
                  && Pending(r.disk) == {}
                  && (Agrees(r.disk.files, logical, {}) <==> CanFinish(env, d, d.journals[id], db))
                  && (!CycleCommitted(d.journals[id].dependency, db) ==>
                        r.disk.files == d.files && id in r.disk.quarantine && r.disk.quarantine[id] == d.journals[id]))
            && (d.script == [] ==> r.status.Ok?)
    decreases |order|
  {
    if order[0] != id {
      assert order[0] !in Pending(d);
      RecoverExact(env, d, logical, id, order[1..], db);
    } else {
      RecoverJournalExact(env, d, logical, id, db);
      var one := RecoverJournal(env, d, id, db);
      if one.status.Ok? {
        RecoverNothing(env, one.disk, order[1..], db);
      }
    }
  }

  lemma RecoverJournalExact(env: Env, d: Disk, logical: map<Path, Bytes>, id: string, db: Database)
    requires Injective(env) && Inv(env, d, logical) && Pending(d) == {id} && DistinctTargets(d.journals[id].items)
    ensures var r := RecoverJournal(env, d, id, db);
            && (r.status.Ok? ==>
                  && Pending(r.disk) == {}
                  && (Agrees(r.disk.files, logical, {}) <==> CanFinish(env, d, d.journals[id], db))
                  && (!CycleCommitted(d.journals[id].dependency, db) ==>
                        r.disk.files == d.files && id in r.disk.quarantine && r.disk.quarantine[id] == d.journals[id]))
            && (d.script == [] ==> r.status.Ok?)
  {
    RollForwardSafe(env, d, logical, id, db);
    RollForwardExact(env, d, logical, id, db);
    RollForwardKeepsJournal(env, d, id, db);
    if RecoverJournal(env, d, id, db).status.Ok? {
      RecoverJournalCloses(env, d, id, db);
    }
    if d.script == [] {
      RecoverJournalEnds(env, d, id, db);
    }
  }

  lemma RecoverJournalCloses(env: Env, d: Disk, id: string, db: Database)
    requires Pending(d) == {id} && RecoverJournal(env, d, id, db).status.Ok?
    ensures Pending(RecoverJournal(env, d, id, db).disk) == {}
  {
    RecoverItemsFrame(env, d, d.journals[id].items);
    var r := RecoverJournal(env, d, id, db);
    forall k ensures k !in Pending(r.disk) {
      assert k in Pending(r.disk) ==> k in Pending(d);
    }
  }

  lemma RecoverJournalEnds(env: Env, d: Disk, id: string, db: Database)
    requires d.script == [] && id in Pending(d)
    ensures RecoverJournal(env, d, id, db).status.Ok?
  {
    RecoverItemsFrame(env, d, d.journals[id].items);
    RecoverItemsNeverDies(env, d, d.journals[id].items);
  }

  lemma {:induction false} RecoverItemsNeverDies(env: Env, d: Disk, items: seq<Item>)
    requires d.script == []
    ensures !RecoverItems(env, d, items).status.Died? && RecoverItems(env, d, items).disk.script == []
    decreases |items|
  {
    if items != [] {
      var s := RecoverItem(env, d, items[0]);
      if s.status.Ok? {
        RecoverItemsNeverDies(env, s.disk, items[1..]);
      }
    }
  }

  // ---------- a run that splits its targets ----------

  const FIRST := Path("d", "a")
  const SECOND := Path("d", "b")

  /** Two published files and nothing else. */
  function CleanDisk(): Disk {
    Disk(map[FIRST := "old", SECOND := "old"], map[], map[], [], [])
  }

  function SplitCall(): Call {
    Call([Payload(FIRST, Some("new")), Payload(SECOND, Some("new"))], "t", Some("c"), false, false)
  }

  /** A process that publishes both files and dies at the second replacement. */
  function DyingSession(): Session {
    Session([], None, [], [Done, Done, Done, Done, Crash(None)], Some(map["c" := "inputs-committed"]),
        Some(SplitCall()))
  }

  function SplitItems(env: Env): seq<Item> {
    [Item(FIRST, PartPath(FIRST, "t"), Some(env.hash("old")), env.hash("new"), false),
     Item(SECOND, PartPath(SECOND, "t"), Some(env.hash("old")), env.hash("new"), false)]
  }

  function SplitDisk(env: Env): Disk {
    Disk(map[FIRST := "new", SECOND := "old", PartPath(SECOND, "t") := "new"],
         map["t" := Journal("t", Prepared, SplitItems(env), Some("c"))], map[], [], [])
  }

  lemma {:induction false} PreparedSplit(env: Env)
    requires env.parses("new")
    ensures var d := CleanDisk().(script := DyingSession().publishScript);
            var both := d.files[PartPath(FIRST, "t") := "new"][PartPath(SECOND, "t") := "new"];
            var left := d.(files := both, script := [Done, Done, Crash(None)]);
            Prepare(env, d, SplitCall().payloads, "t") == Preparation(left, Ok, SplitItems(env))
  {
    var d := CleanDisk().(script := DyingSession().publishScript);
    var payloads := SplitCall().payloads;
    PartPathIsPart(FIRST, "t");
    PartPathIsPart(SECOND, "t");
    var one := PrepareOne(env, d, payloads[0], "t");
    assert one.disk.script == [Done, Done, Done, Crash(None)] && one.status.Ok?;
    var two := PrepareOne(env, one.disk, payloads[1], "t");
    assert two.disk.script == [Done, Done, Crash(None)] && two.status.Ok?;
    assert payloads[1..] == [payloads[1]] && payloads[1..][1..] == [];
    assert Prepare(env, one.disk, payloads[1..], "t") == Preparation(two.disk, Ok, two.items + []);
    assert one.items + (two.items + []) == SplitItems(env);
  }

  /** The disk that the dying process leaves. */
  lemma SplitReached(env: Env)
    requires Injective(env) && env.parses("new")
    ensures RunSession(env, CleanDisk(), DyingSession()).disk == SplitDisk(env)
  {
    var d := CleanDisk().(script := DyingSession().publishScript);
    var call, items := SplitCall(), SplitItems(env);
    PreparedSplit(env);
    PartPathIsPart(FIRST, "t");
    PartPathIsPart(SECOND, "t");
    var p := Prepare(env, d, call.payloads, "t").disk;
    var j := WriteJournal(p, "t", Journal("t", Prepared, items, Some("c")));
    assert j.status.Ok? && j.disk.script == [Done, Crash(None)];
    SplitFiles();
    SplitInstall(env, j.disk);
  }

  lemma {:induction false} SplitInstall(env: Env, d: Disk)
    requires d.script == [Done, Crash(None)]
    requires d.files == CleanDisk().files[PartPath(FIRST, "t") := "new"][PartPath(SECOND, "t") := "new"]
    ensures var s := Install(env, d, SplitItems(env));
            s.status.Died? && s.disk == d.(files := (d.files - {PartPath(FIRST, "t")})[FIRST := "new"], script := [])
  {
    var items := SplitItems(env);
    var one := InstallOne(env, d, items[0]);
    assert one.status.Ok? && one.disk.script == [Crash(None)];
    var two := InstallOne(env, one.disk, items[1]);
    assert two.status.Died? && two.disk.script == [] && two.disk.files == one.disk.files;
    assert items[1..][0] == items[1];
  }

  lemma SplitFiles()
    ensures var a, b := PartPath(FIRST, "t"), PartPath(SECOND, "t");
            var moved := (CleanDisk().files[a := "new"][b := "new"] - {a})[FIRST := "new"];
            moved == map[FIRST := "new", SECOND := "old", b := "new"]
  {
    PartPathIsPart(FIRST, "t");
    PartPathIsPart(SECOND, "t");
    assert !IsPart(FIRST) && !IsPart(SECOND);
    if PartPath(FIRST, "t") == PartPath(SECOND, "t") {
      PartPathInjective(FIRST, SECOND, "t");
    }
  }

  /**
   A crash after the first replacement, then a lost cycle row.  The process starts from a clean disk; the recovery that
   follows runs to its end, quarantines the journal, and leaves one target new and the other old.
   */
  lemma {:induction false} QuarantineCanSplitTargets(env: Env, lost: Database)
    requires Injective(env) && env.parses("new") && !CycleCommitted(Some("c"), lost)
    ensures Pending(CleanDisk()) == {} && Legal(env, CleanDisk(), [DyingSession()])
    ensures var r := Recover(env, Run(env, CleanDisk(), [DyingSession()]), ["t"], lost);
            && r.status.Ok? && Pending(r.disk) == {} && "t" in r.disk.quarantine
            && FIRST in r.disk.files && r.disk.files[FIRST] == "new"
            && SECOND in r.disk.files && r.disk.files[SECOND] == "old"
  {
    SplitReached(env);
    assert [DyingSession()][1..] == [];
    var d := SplitDisk(env);
    assert Run(env, CleanDisk(), [DyingSession()]) == d;
    assert !IsPart(FIRST) && !IsPart(SECOND);
    var one := RecoverJournal(env, d, "t", lost);
    assert one.disk.files == d.files && one.status.Ok? && "t" !in one.disk.journals;
    assert ["t"][1..] == [];
  }
}
