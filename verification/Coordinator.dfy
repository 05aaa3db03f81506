/** The publication coordinator: the loops of `publish` and `recover`, refining the steps of Publication. */
module Coordinator {
  import opened Wrappers
  import opened Publication

  class PublicationCoordinator {
    const env: Env
    var disk: Disk

    constructor (env: Env, disk: Disk)
      ensures this.env == env && this.disk == disk
    {
      this.env := env;
      this.disk := disk;
    }

    method PreparePayload(payload: Payload, txn: string) returns (status: Status, items: seq<Item>)
      modifies this
      ensures PrepareOne(env, old(disk), payload, txn) == Preparation(disk, status, items)
    {
      items := [];
      if payload.content.None? {
        return Raised, [];
      }
      var content := payload.content.value;
      var temporary := PartPath(payload.target, txn);
      var written := WriteBytes(disk, temporary, content);
      disk := written.disk;
      if written.status != Ok {
        return written.status, [];
      }
      if !env.parses(content) {
        return Raised, [];
      }
      var preHash := HashOf(env, disk.files, payload.target);
      return Ok, [Item(payload.target, temporary, preHash, env.hash(content), false)];
    }

    method PrepareAll(payloads: seq<Payload>, txn: string) returns (status: Status, items: seq<Item>)
      modifies this
      ensures var p := Prepare(env, old(disk), payloads, txn);
              p.disk == disk && p.status == status && (status.Ok? ==> p.items == items)
    {
      items := [];
      var i := 0;
      while i < |payloads|
        invariant 0 <= i <= |payloads|
        invariant var rest := Prepare(env, disk, payloads[i..], txn);
                  var all := Prepare(env, old(disk), payloads, txn);
                  all.disk == rest.disk && all.status == rest.status
                  && (all.status.Ok? ==> all.items == items + rest.items)
      {
        assert payloads[i..][0] == payloads[i] && payloads[i..][1..] == payloads[i + 1..];
        var one;
        status, one := PreparePayload(payloads[i], txn);
        if status != Ok {
          return;
        }
        items := items + one;
        i := i + 1;
      }
      status := Ok;
    }

    /** Replaces the targets one by one and marks each item of the in-memory journal. */
    method InstallAll(prepared: seq<Item>) returns (status: Status, items: seq<Item>)
      modifies this
      ensures Install(env, old(disk), prepared) == Step(disk, status)
      ensures status.Ok? ==> items == MarkReplaced(prepared)
    {
      items := prepared;
      var k := 0;
      while k < |prepared|
        invariant 0 <= k <= |prepared| == |items|
        invariant Install(env, old(disk), prepared) == Install(env, disk, prepared[k..])
        invariant forall i :: 0 <= i < |items| ==>
                    items[i] == if i < k then prepared[i].(replaced := true) else prepared[i]
      {
        assert prepared[k..][0] == prepared[k] && prepared[k..][1..] == prepared[k + 1..];
        var s := Replace(disk, items[k].temporary, items[k].target);
        disk := s.disk;
        if s.status != Ok {
          return s.status, items;
        }
        if HashOf(env, disk.files, items[k].target) != Some(items[k].postHash) {
          return Raised, items;
        }
        items := items[k := items[k].(replaced := true)];
        k := k + 1;
      }
      status := Ok;
    }

    method Publish(call: Call, db: Database) returns (status: Status)
      modifies this
      ensures var p := Publication.Publish(env, old(disk), call, db);
              disk == p.disk && status == p.status
    {
      if call.payloads == [] || !CycleCommitted(call.dependency, db) {
        return Raised;
      }
      var items;
      status, items := PrepareAll(call.payloads, call.txn);
      if status != Ok {
        return;
      }
      var journal := Journal(call.txn, Prepared, items, call.dependency);
      var written := WriteJournal(disk, call.txn, journal);
      disk := written.disk;
      if written.status != Ok {
        return written.status;
      }
      status, items := InstallAll(items);
      if status != Ok {
        return;
      }
      journal := journal.(items := items);
      var announced := Announce(disk, call);
      disk := announced.disk;
      if announced.status != Ok {
        return announced.status;
      }
      journal := journal.(state := Committed);
      var closed := WriteJournal(disk, call.txn, journal);
      disk := closed.disk;
      return closed.status;
    }

    method RollForwardJournal(id: string, db: Database) returns (status: Status)
      requires id in disk.journals
      modifies this
      ensures RollForward(env, old(disk), id, db) == Step(disk, status)
      ensures id in disk.journals
    {
      var journal := disk.journals[id];
      if !CycleCommitted(journal.dependency, db) {
        return Raised;
      }
      var k := 0;
      while k < |journal.items|
        invariant 0 <= k <= |journal.items|
        invariant RecoverItems(env, old(disk), journal.items) == RecoverItems(env, disk, journal.items[k..])
        invariant disk.journals == old(disk).journals
      {
        var item := journal.items[k];
        assert journal.items[k..][0] == item && journal.items[k..][1..] == journal.items[k + 1..];
        if HashOf(env, disk.files, item.target) != Some(item.postHash) {
          if HashOf(env, disk.files, item.temporary) != Some(item.postHash) {
            return Raised;
          }
          var s := Replace(disk, item.temporary, item.target);
          disk := s.disk;
          if s.status != Ok {
            return s.status;
          }
          if !env.parses(disk.files[item.target]) {
            return Raised;
          }
        }
        k := k + 1;
      }
      journal := journal.(state := Committed);
      var closed := WriteJournal(disk, id, journal);
      disk := closed.disk;
      return closed.status;
    }

    method RecoverOne(id: string, db: Database) returns (status: Status, finished: bool)
      modifies this
      ensures var r := RecoverJournal(env, old(disk), id, db);
              disk == r.disk && status == r.status && r.recovered == if finished then [id] else []
    {
      if id !in disk.journals || disk.journals[id].state == Committed {
        return Ok, false;
      }
      status := RollForwardJournal(id, db);
      if status != Raised {
        return status, status == Ok;
      }
      var moved := MoveToQuarantine(disk, id);
      disk := moved.disk;
      return moved.status, false;
    }

    method Recover(order: seq<string>, db: Database) returns (status: Status, recovered: seq<string>)
      modifies this
      ensures var r := Publication.Recover(env, old(disk), order, db);
              disk == r.disk && status == r.status && (status.Ok? ==> recovered == r.recovered)
    {
      recovered := [];
      ghost var all := Publication.Recover(env, disk, order, db);
      var k := 0;
      while k < |order|
        invariant 0 <= k <= |order|
        invariant Continues(all, recovered, Publication.Recover(env, disk, order[k..], db))
      {
        assert order[k..][0] == order[k] && order[k..][1..] == order[k + 1..];
        RecoverFirst(all, recovered, env, disk, order[k..], db);
        var finished;
        status, finished := RecoverOne(order[k], db);
        if status != Ok {
          return;
        }
        recovered := recovered + if finished then [order[k]] else [];
        k := k + 1;
      }
      status := Ok;
    }
  }

  /** `all` is what a recovery that has rolled `recovered` forward returns when `rest` is what remains to be done. */
  ghost predicate Continues(all: Recovery, recovered: seq<string>, rest: Recovery) {
    all.disk == rest.disk && all.status == rest.status
        && (all.status.Ok? ==> all.recovered == recovered + rest.recovered)
  }

  /** The first journal, and the loop's progress over it. */
  lemma {:induction false} RecoverFirst(
    all: Recovery, recovered: seq<string>, env: Env, d: Disk, order: seq<string>, db: Database)
    requires order != [] && Continues(all, recovered, Publication.Recover(env, d, order, db))
    ensures var one := RecoverJournal(env, d, order[0], db);
            if one.status.Ok? then
              Continues(all, recovered + one.recovered, Publication.Recover(env, one.disk, order[1..], db))
            else all.disk == one.disk && all.status == one.status
  {
    var one := RecoverJournal(env, d, order[0], db);
    var rest := Publication.Recover(env, one.disk, order[1..], db);
    if one.status.Ok? {
      assert Publication.Recover(env, d, order, db) == rest.(recovered := one.recovered + rest.recovered);
      assert recovered + (one.recovered + rest.recovered) == (recovered + one.recovered) + rest.recovered;
    } else {
      assert Publication.Recover(env, d, order, db) == one;
    }
  }
}
