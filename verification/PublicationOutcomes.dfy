/** What one publication leaves behind and what one recovery reports (src/EdgeWARN/ctam/publication.py). */
module PublicationOutcomes {
  import opened Wrappers
  import opened Collections
  import opened Publication
  import opened PublicationSafety
  import opened PublicationRuns

  // ---------- the callbacks ----------

  /** The callbacks of a call, alerts before indexes, each having seen `files`. */
  function Announcements(call: Call, files: map<Path, Bytes>): seq<Event> {
    (if call.alerts then [AlertsRan(files)] else []) + (if call.indexes then [IndexesRan(files)] else [])
  }

  /** What happened since `before`. */
  ghost predicate Added(before: seq<Event>, after: seq<Event>, events: seq<Event>) {
    after == before + events
  }

  lemma AnnounceExact(d: Disk, call: Call)
    ensures var s := Announce(d, call);
            && s.disk.files == d.files && s.disk.journals == d.journals
            && (s.status.Ok? ==> Added(d.log, s.disk.log, Announcements(call, d.files)))
            && exists n: nat :: n <= |Announcements(call, d.files)|
                 && Added(d.log, s.disk.log, Announcements(call, d.files)[..n])
  {
    var all := Announcements(call, d.files);
    var s := Announce(d, call);
    var alerted := RunCallback(d, call.alerts, AlertsRan(d.files));
    if alerted.status.Ok? {
      assert s.disk.log == d.log + all;
      assert all[..|all|] == all;
    } else {
      assert call.alerts && all[..1] == [AlertsRan(d.files)];
    }
  }

  lemma FinishAnnounces(env: Env, d: Disk, call: Call, items: seq<Item>)
    ensures var f := Finish(env, d, call, items);
            var all := Announcements(call, f.disk.files);
            && (f.status.Ok? ==> Added(d.log, f.disk.log, all))
            && exists n: nat :: n <= |all| && Added(d.log, f.disk.log, all[..n])
  {
    InstallLog(env, d, items);
    var installed := Install(env, d, items);
    if installed.status.Ok? {
      AnnounceExact(installed.disk, call);
      var announced := Announce(installed.disk, call);
      assert announced.disk.log == Finish(env, d, call, items).disk.log;
    } else {
      NothingAdded(d.log, Announcements(call, installed.disk.files));
    }
  }

  lemma NothingAdded(log: seq<Event>, all: seq<Event>)
    ensures exists n: nat :: n <= |all| && Added(log, log, all[..n])
  {
    assert all[..0] == [] && Added(log, log, all[..0]);
  }

  /**
   Whatever the disk, the call and its script: a publication that succeeds has run each callback that it was given
   exactly once, alerts before indexes, on the final files; one that does not has run a prefix of them.
   */
  lemma PublishAnnounces(env: Env, d: Disk, call: Call, db: Database)
    ensures var p := Publish(env, d, call, db);
            var all := Announcements(call, p.disk.files);
            && (p.status.Ok? ==> Added(d.log, p.disk.log, all))
            && exists n: nat :: n <= |all| && Added(d.log, p.disk.log, all[..n])
  {
    var p := Publish(env, d, call, db);
    var all := Announcements(call, p.disk.files);
    assert all[..0] == [] && d.log + [] == d.log;
    if call.payloads != [] && CycleCommitted(call.dependency, db) {
      PrepareLog(env, d, call.payloads, call.txn);
      var prep := Prepare(env, d, call.payloads, call.txn);
      if prep.status.Ok? {
        var journal := Journal(call.txn, Prepared, prep.items, call.dependency);
        FinishAnnounces(env, WriteJournal(prep.disk, call.txn, journal).disk, call, prep.items);
      }
    }
  }

  lemma {:induction false} PrepareLog(env: Env, d: Disk, payloads: seq<Payload>, txn: string)
    ensures Prepare(env, d, payloads, txn).disk.log == d.log
    ensures Prepare(env, d, payloads, txn).disk.journals == d.journals
    decreases |payloads|
  {
    if payloads != [] && PrepareOne(env, d, payloads[0], txn).status.Ok? {
      PrepareLog(env, PrepareOne(env, d, payloads[0], txn).disk, payloads[1..], txn);
    }
  }

  // ---------- when a publication succeeds ----------

  /** There is no dependency, or the database can be read and says that the cycle's inputs or forecasts are
      committed. */
  predicate IsBacked(dependency: Option<string>, db: Database) {
    dependency.Some? ==>
      && db.Some? && dependency.value in db.value
      && (db.value[dependency.value] == "inputs-committed" || db.value[dependency.value] == "forecasts-committed")
  }

  /** The payload is finite JSON and reads back. */
  predicate Publishable(env: Env, payload: Payload) {
    payload.content.Some? && env.parses(payload.content.value)
  }

  ghost predicate AllPublishable(env: Env, payloads: seq<Payload>) {
    forall i :: 0 <= i < |payloads| ==> Publishable(env, payloads[i])
  }

  lemma {:induction false} PrepareSucceeds(env: Env, d: Disk, payloads: seq<Payload>, txn: string)
    requires d.script == []
    ensures var r := Prepare(env, d, payloads, txn);
            && r.disk.script == [] && !r.status.Died?
            && (r.status.Ok? <==> AllPublishable(env, payloads))
    decreases |payloads|
  {
    if payloads != [] {
      var one := PrepareOne(env, d, payloads[0], txn);
      assert one.status.Ok? <==> Publishable(env, payloads[0]);
      if one.status.Ok? {
        PrepareSucceeds(env, one.disk, payloads[1..], txn);
        assert payloads == [payloads[0]] + payloads[1..];
        if AllPublishable(env, payloads[1..]) {
          forall i | 0 <= i < |payloads| ensures Publishable(env, payloads[i]) {
            assert i > 0 ==> payloads[i] == payloads[1..][i - 1];
          }
        }
      }
    }
  }

  lemma {:induction false} InstallSucceeds(env: Env, d: Disk, txn: string, items: seq<Item>)
    requires d.script == []
    requires forall i :: 0 <= i < |items| ==>
               && !IsPart(items[i].target) && items[i].temporary == PartPath(items[i].target, txn)
               && items[i].temporary in d.files && env.hash(d.files[items[i].temporary]) == items[i].postHash
    requires forall i, j :: 0 <= i < j < |items| ==> items[i].target != items[j].target
    ensures Install(env, d, items).status.Ok? && Install(env, d, items).disk.script == []
    decreases |items|
  {
    if items != [] {
      var s := InstallOne(env, d, items[0]);
      forall i | 1 <= i < |items|
        ensures items[i].temporary in s.disk.files && s.disk.files[items[i].temporary] == d.files[items[i].temporary]
      {
        PartPathIsPart(items[i].target, txn);
        if items[i].temporary == items[0].temporary {
          PartPathInjective(items[i].target, items[0].target, txn);
        }
      }
      InstallSucceeds(env, s.disk, txn, items[1..]);
    }
  }

  /** With no error and no crash ahead, a publication succeeds if and only if it has payloads, all finite JSON that
      reads back, and its database cycle is committed. */
  lemma PublishSucceeds(env: Env, d: Disk, call: Call, db: Database)
    requires d.script == [] && Hygienic(call.payloads)
    ensures Publish(env, d, call, db).status.Ok? <==>
              call.payloads != [] && IsBacked(call.dependency, db) && AllPublishable(env, call.payloads)
  {
    if call.payloads != [] && CycleCommitted(call.dependency, db) {
      PrepareSucceeds(env, d, call.payloads, call.txn);
      PrepareSafe(env, d, call.payloads, call.txn);
      var prep := Prepare(env, d, call.payloads, call.txn);
      if prep.status.Ok? {
        forall i | 0 <= i < |prep.items|
          ensures ItemMatches(env, prep.disk.files, call.payloads[i], call.txn, prep.items[i])
        {
        }
        var j := WriteJournal(prep.disk, call.txn, Journal(call.txn, Prepared, prep.items, call.dependency));
        InstallSucceeds(env, j.disk, call.txn, prep.items);
      }
    }
  }

  // ---------- the files and the journal afterwards ----------

  /** The record of one published payload. */
  function Record(env: Env, before: map<Path, Bytes>, payload: Payload, txn: string, replaced: bool): Item
    requires payload.content.Some?
  {
    Item(payload.target, PartPath(payload.target, txn), HashOf(env, before, payload.target),
         env.hash(payload.content.value), replaced)
  }

  /** The journal of the call, in the given state. */
  ghost predicate Records(
    env: Env, before: map<Path, Bytes>, call: Call, journal: Journal, state: JournalState, replaced: bool)
  {
    && journal.txn == call.txn && journal.state == state && journal.dependency == call.dependency
    && |journal.items| == |call.payloads|
    && forall i :: 0 <= i < |call.payloads| ==>
         && call.payloads[i].content.Some?
         && journal.items[i] == Record(env, before, call.payloads[i], call.txn, replaced)
  }

  lemma {:induction false} PrepareRecords(
    env: Env, before: map<Path, Bytes>, d: Disk, payloads: seq<Payload>, txn: string)
    requires Hygienic(payloads) && Prepare(env, d, payloads, txn).status.Ok?
    requires forall p :: !IsPart(p) ==> SameFile(d.files, before, p)
    ensures var items := Prepare(env, d, payloads, txn).items;
            && |items| == |payloads|
            && forall i :: 0 <= i < |payloads| ==>
                 payloads[i].content.Some? && items[i] == Record(env, before, payloads[i], txn, false)
    decreases |payloads|
  {
    if payloads != [] {
      var one := PrepareOne(env, d, payloads[0], txn);
      PartPathIsPart(payloads[0].target, txn);
      assert SameFile(d.files, before, payloads[0].target);
      PrepareRecords(env, before, one.disk, payloads[1..], txn);
      forall i | 1 <= i < |payloads| ensures payloads[i] == payloads[1..][i - 1] {
      }
    }
  }

  lemma FinishJournal(env: Env, d: Disk, call: Call, items: seq<Item>)
    ensures var f := Finish(env, d, call, items);
            var closed := Journal(call.txn, Committed, MarkReplaced(items), call.dependency);
            && (f.status.Ok? ==> f.disk.journals == d.journals[call.txn := closed])
            && f.disk.journals in {d.journals, d.journals[call.txn := closed]}
  {
    InstallJournals(env, d, items);
    AnnounceExact(Install(env, d, items).disk, call);
  }

  lemma {:induction false} InstallJournals(env: Env, d: Disk, items: seq<Item>)
    ensures Install(env, d, items).disk.journals == d.journals
    decreases |items|
  {
    if items != [] && InstallOne(env, d, items[0]).status.Ok? {
      InstallJournals(env, InstallOne(env, d, items[0]).disk, items[1..]);
    }
  }

  /**
   The journals after a publication, wherever it stopped: only the call's own journal changes, and only if it was
   accepted.  A success leaves it committed with every payload recorded as replaced; an accepted failure leaves it
   prepared with every payload recorded, or already committed.
   */
  lemma PublishJournal(env: Env, d: Disk, call: Call, db: Database)
    requires Hygienic(call.payloads)
    ensures var p := Publish(env, d, call, db);
            && (p.status.Ok? ==> p.accepted)
            && (!p.accepted ==> p.disk.journals == d.journals)
            && (p.accepted ==>
                  && call.txn in p.disk.journals
                  && p.disk.journals == d.journals[call.txn := p.disk.journals[call.txn]]
                  && var journal := p.disk.journals[call.txn];
                     || Records(env, d.files, call, journal, Committed, true)
                     || (!p.status.Ok? && Records(env, d.files, call, journal, Prepared, false)))
  {
    var p := Publish(env, d, call, db);
    if call.payloads != [] && CycleCommitted(call.dependency, db) {
      var prep := Prepare(env, d, call.payloads, call.txn);
      PrepareLog(env, d, call.payloads, call.txn);
      if prep.status.Ok? {
        PrepareRecords(env, d.files, d, call.payloads, call.txn);
        var journal := Journal(call.txn, Prepared, prep.items, call.dependency);
        var j := WriteJournal(prep.disk, call.txn, journal);
        assert Records(env, d.files, call, journal, Prepared, false);
        if j.status.Ok? {
          FinishRecords(env, d, j.disk, call, journal);
        }
      }
    }
  }

  /** The tail of a publication closes the prepared journal or leaves it. */
  lemma FinishRecords(env: Env, d: Disk, prepared: Disk, call: Call, journal: Journal)
    requires Records(env, d.files, call, journal, Prepared, false)
    requires prepared.journals == d.journals[call.txn := journal]
    ensures var f := Finish(env, prepared, call, journal.items);
            && call.txn in f.disk.journals
            && f.disk.journals == d.journals[call.txn := f.disk.journals[call.txn]]
            && (Records(env, d.files, call, f.disk.journals[call.txn], Committed, true)
                || (!f.status.Ok? && f.disk.journals[call.txn] == journal))
  {
    FinishJournal(env, prepared, call, journal.items);
    var closed := Journal(call.txn, Committed, MarkReplaced(journal.items), call.dependency);
    assert Records(env, d.files, call, closed, Committed, true);
    assert prepared.journals[call.txn := closed] == d.journals[call.txn := closed];
  }

  /** The visible files after a publication that succeeded: each target holds its payload, and nothing else changed. */
  lemma PublishFiles(env: Env, d: Disk, call: Call, db: Database)
    requires Pending(d) == {} && (forall id :: id in d.journals ==> d.journals[id].txn == id)
    requires Hygienic(call.payloads) && Publish(env, d, call, db).status.Ok?
    ensures var files := Publish(env, d, call, db).disk.files;
            && (forall i :: 0 <= i < |call.payloads| ==>
                  && call.payloads[i].content.Some? && call.payloads[i].target in files
                  && files[call.payloads[i].target] == call.payloads[i].content.value)
            && (forall p :: !IsPart(p) && (forall i :: 0 <= i < |call.payloads| ==> p != call.payloads[i].target) ==>
                  SameFile(files, d.files, p))
  {
    var files := Publish(env, d, call, db).disk.files;
    var after := WithPayloads(d.files, call.payloads);
    PublishSafe(env, d, call, db, d.files);
    PrepareSafe(env, d, call.payloads, call.txn);
    var prep := Prepare(env, d, call.payloads, call.txn);
    forall i | 0 <= i < |call.payloads| ensures call.payloads[i].content.Some? {
      assert ItemMatches(env, prep.disk.files, call.payloads[i], call.txn, prep.items[i]);
    }
    WithPayloadsAt(d.files, call.payloads);
    assert Agrees(files, after, {});
    forall i | 0 <= i < |call.payloads|
      ensures call.payloads[i].target in files && files[call.payloads[i].target] == call.payloads[i].content.value
    {
      assert Holds(files, after, call.payloads[i].target);
    }
    forall p | !IsPart(p) && forall i :: 0 <= i < |call.payloads| ==> p != call.payloads[i].target
      ensures SameFile(files, d.files, p)
    {
      assert Holds(files, after, p) && SameFile(after, d.files, p);
    }
  }

  // ---------- what recovery puts in place ----------

  /** The items have distinct targets, and no target is a temporary part. */
  ghost predicate Separate(items: seq<Item>) {
    && (forall i, j :: 0 <= i < j < |items| ==> items[i].target != items[j].target)
    && forall i, j :: 0 <= i < |items| && 0 <= j < |items| ==> items[i].target != items[j].temporary
  }

  /** The target is as it was, or holds content with the recorded hash; if the content is new it reads back. */
  ghost predicate Verified(env: Env, before: map<Path, Bytes>, after: map<Path, Bytes>, item: Item) {
    || SameFile(before, after, item.target)
    || HashOf(env, after, item.target) == Some(item.postHash)
  }

  lemma {:induction false} RecoverTouches(env: Env, d: Disk, items: seq<Item>, p: Path)
    requires forall i :: 0 <= i < |items| ==> p != items[i].target && p != items[i].temporary
    ensures SameFile(d.files, RecoverItems(env, d, items).disk.files, p)
    decreases |items|
  {
    if items != [] && RecoverItem(env, d, items[0]).status.Ok? {
      RecoverTouches(env, RecoverItem(env, d, items[0]).disk, items[1..], p);
    }
  }

  /**
   Recovery on a disk in any state, parts missing or damaged included.  It puts nothing in place but content with the
   hash that the journal recorded; and it goes through only if at the end every target has that hash, and what it put
   in place itself reads back.
   */
  lemma {:induction false} RecoverVerifies(env: Env, d: Disk, items: seq<Item>, k: nat)
    requires Separate(items) && k < |items|
    ensures var s := RecoverItems(env, d, items);
            && Verified(env, d.files, s.disk.files, items[k])
            && (s.status.Ok? ==>
                  && HashOf(env, s.disk.files, items[k].target) == Some(items[k].postHash)
                  && (HashOf(env, d.files, items[k].target) == Some(items[k].postHash)
                      || env.parses(s.disk.files[items[k].target])))
    decreases |items|
  {
    var one := RecoverItem(env, d, items[0]);
    forall i | 1 <= i < |items| ensures items[1..][i - 1] == items[i] {
    }
    if one.status.Ok? {
      if k == 0 {
        RecoverTouches(env, one.disk, items[1..], items[0].target);
      } else {
        assert SameFile(d.files, one.disk.files, items[k].target);
        RecoverVerifies(env, one.disk, items[1..], k - 1);
      }
    }
  }

  /** The same for the replacements of a publication. */
  lemma {:induction false} InstallVerifies(env: Env, d: Disk, items: seq<Item>, k: nat)
    requires Separate(items) && k < |items| && Install(env, d, items).status.Ok?
    ensures HashOf(env, Install(env, d, items).disk.files, items[k].target) == Some(items[k].postHash)
    decreases |items|
  {
    var one := InstallOne(env, d, items[0]);
    forall i | 1 <= i < |items| ensures items[1..][i - 1] == items[i] {
    }
    if k == 0 {
      InstallTouches(env, one.disk, items[1..], items[0].target);
    } else {
      InstallVerifies(env, one.disk, items[1..], k - 1);
    }
  }

  lemma {:induction false} InstallTouches(env: Env, d: Disk, items: seq<Item>, p: Path)
    requires forall i :: 0 <= i < |items| ==> p != items[i].target && p != items[i].temporary
    ensures SameFile(d.files, Install(env, d, items).disk.files, p)
    decreases |items|
  {
    if items != [] && InstallOne(env, d, items[0]).status.Ok? {
      InstallTouches(env, InstallOne(env, d, items[0]).disk, items[1..], p);
    }
  }

  // ---------- what recovery reports ----------

  /** No journal but `id` differs. */
  ghost predicate OnlyJournal(before: Disk, after: Disk, id: string) {
    forall k :: k != id ==>
      && (k in after.journals <==> k in before.journals)
      && (k in before.journals ==> after.journals[k] == before.journals[k])
  }

  lemma RecoverOneFrame(env: Env, d: Disk, id: string, db: Database)
    ensures OnlyJournal(d, RecoverJournal(env, d, id, db).disk, id)
  {
    if id in d.journals && d.journals[id].state.Prepared? {
      RollForwardFrame(env, d, id, db);
      RollForwardKeepsJournal(env, d, id, db);
      var s := RollForward(env, d, id, db);
      if s.status.Raised? {
        QuarantineFrame(s.disk, id);
      }
    }
  }

  lemma RollForwardFrame(env: Env, d: Disk, id: string, db: Database)
    requires id in d.journals
    ensures OnlyJournal(d, RollForward(env, d, id, db).disk, id)
  {
    RecoverItemsFrame(env, d, d.journals[id].items);
  }

  lemma QuarantineFrame(d: Disk, id: string)
    requires id in d.journals
    ensures OnlyJournal(d, MoveToQuarantine(d, id).disk, id)
  {
  }

  lemma RecoverOneReport(env: Env, d: Disk, id: string, db: Database)
    requires RecoverJournal(env, d, id, db).status.Ok?
    ensures var r := RecoverJournal(env, d, id, db);
            && id !in Pending(r.disk) && (id !in Pending(d) ==> r.disk == d)
            && (id in Pending(d) && id in r.disk.journals ==>
                  r.disk.journals[id] == d.journals[id].(state := Committed))
            && r.recovered == if id in Pending(d) && id in r.disk.journals then [id] else []
  {
    if id in d.journals && d.journals[id].state.Prepared? {
      RecoverItemsFrame(env, d, d.journals[id].items);
    }
  }

  /** Journals that recovery does not list, or that are not open, stay as they are. */
  ghost predicate OnlyOpenListed(before: Disk, after: Disk, order: seq<string>) {
    forall id :: id !in order || id !in Pending(before) ==>
      && (id in after.journals <==> id in before.journals)
      && (id in before.journals ==> after.journals[id] == before.journals[id])
  }

  /** The open journal `id` was listed, and is now closed, with the record otherwise as it was. */
  ghost predicate Closed(before: Disk, after: Disk, order: seq<string>, id: string) {
    && id in order && id in Pending(before) && id in after.journals
    && after.journals[id] == before.journals[id].(state := Committed)
  }

  /** A recovery that runs to its end reports exactly the open journals that it closed rather than quarantined, each
      once. */
  lemma {:induction false} RecoveredExact(env: Env, d: Disk, order: seq<string>, db: Database)
    requires Recover(env, d, order, db).status.Ok?
    ensures var r := Recover(env, d, order, db);
            && NoDuplicates(r.recovered)
            && (forall id :: id in r.recovered <==> Closed(d, r.disk, order, id))
            && OnlyOpenListed(d, r.disk, order)
    decreases |order|
  {
    if order != [] {
      var one := RecoverJournal(env, d, order[0], db);
      var tail := Recover(env, one.disk, order[1..], db);
      RecoverOneFrame(env, d, order[0], db);
      RecoverOneReport(env, d, order[0], db);
      RecoveredExact(env, one.disk, order[1..], db);
      FirstReported(d, one, tail, order);
    }
  }

  lemma FirstReported(d: Disk, one: Recovery, tail: Recovery, order: seq<string>)
    requires order != [] && OnlyJournal(d, one.disk, order[0]) && order[0] !in Pending(one.disk)
    requires order[0] !in Pending(d) ==> one.disk == d
    requires order[0] in Pending(d) && order[0] in one.disk.journals ==>
               one.disk.journals[order[0]] == d.journals[order[0]].(state := Committed)
    requires one.recovered == if order[0] in Pending(d) && order[0] in one.disk.journals then [order[0]] else []
    requires NoDuplicates(tail.recovered) && OnlyOpenListed(one.disk, tail.disk, order[1..])
    requires forall id :: id in tail.recovered <==> Closed(one.disk, tail.disk, order[1..], id)
    ensures NoDuplicates(one.recovered + tail.recovered) && OnlyOpenListed(d, tail.disk, order)
    ensures forall id :: id in one.recovered + tail.recovered <==> Closed(d, tail.disk, order, id)
  {
    var first := order[0];
    assert order == [first] + order[1..];
    assert first !in tail.recovered;
    forall id | id != first ensures id in Pending(one.disk) <==> id in Pending(d) {
    }
    assert first in tail.disk.journals <==> first in one.disk.journals;
  }
}
