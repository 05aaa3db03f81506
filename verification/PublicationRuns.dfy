/** Publishing, and whole runs of crashing processes that recover before they publish. */
module PublicationRuns {
  import opened Wrappers
  import opened Publication
  import opened PublicationSafety

  // ---------- preparing ----------

  ghost predicate SameFile(a: map<Path, Bytes>, b: map<Path, Bytes>, p: Path) {
    (p in a <==> p in b) && (p in a ==> a[p] == b[p])
  }

  ghost predicate ItemMatches(env: Env, files: map<Path, Bytes>, payload: Payload, txn: string, item: Item) {
    && payload.content.Some? && item.target == payload.target
    && item.temporary == PartPath(payload.target, txn)
    && item.postHash == env.hash(payload.content.value) && env.parses(payload.content.value)
    && item.temporary in files && files[item.temporary] == payload.content.value
  }

  lemma PartsDiffer(payloads: seq<Payload>, txn: string)
    requires Hygienic(payloads) && payloads != []
    ensures forall i :: 1 <= i < |payloads| ==> PartPath(payloads[i].target, txn) != PartPath(payloads[0].target, txn)
  {
    forall i | 1 <= i < |payloads| ensures PartPath(payloads[i].target, txn) != PartPath(payloads[0].target, txn) {
      if PartPath(payloads[i].target, txn) == PartPath(payloads[0].target, txn) {
        PartPathInjective(payloads[i].target, payloads[0].target, txn);
      }
    }
  }

  /** Preparation touches only the parts of its own payloads and leaves them complete. */
  lemma {:induction false} PrepareSafe(env: Env, d: Disk, payloads: seq<Payload>, txn: string)
    requires Hygienic(payloads)
    ensures var r := Prepare(env, d, payloads, txn);
            && r.disk.journals == d.journals && r.disk.quarantine == d.quarantine && r.disk.log == d.log
            && (forall p :: (forall i :: 0 <= i < |payloads| ==> p != PartPath(payloads[i].target, txn)) ==>
                  SameFile(r.disk.files, d.files, p))
            && (r.status.Ok? ==>
                  && |r.items| == |payloads|
                  && forall i :: 0 <= i < |payloads| ==> ItemMatches(env, r.disk.files, payloads[i], txn, r.items[i]))
    decreases |payloads|
  {
    if payloads != [] {
      var one := PrepareOne(env, d, payloads[0], txn);
      var part := PartPath(payloads[0].target, txn);
      if one.status.Ok? {
        var tail := payloads[1..];
        PrepareSafe(env, one.disk, tail, txn);
        PartsDiffer(payloads, txn);
        var files := Prepare(env, one.disk, tail, txn).disk.files;
        assert SameFile(files, one.disk.files, part);
        forall p | forall i :: 0 <= i < |payloads| ==> p != PartPath(payloads[i].target, txn)
          ensures SameFile(files, d.files, p)
        {
          assert p != PartPath(payloads[0].target, txn);
          assert forall i :: 0 <= i < |tail| ==> tail[i] == payloads[i + 1];
          assert SameFile(files, one.disk.files, p);
        }
      }
    }
  }

  /** The logical state after an accepted publication. */
  ghost function WithPayloads(logical: map<Path, Bytes>, payloads: seq<Payload>): map<Path, Bytes>
    decreases |payloads|
  {
    if payloads == [] then logical
    else
      var p := payloads[|payloads| - 1];
      var before := WithPayloads(logical, payloads[..|payloads| - 1]);
      if p.content.Some? then before[p.target := p.content.value] else before
  }

  lemma {:induction false} WithPayloadsAt(logical: map<Path, Bytes>, payloads: seq<Payload>)
    requires Hygienic(payloads) && forall i :: 0 <= i < |payloads| ==> payloads[i].content.Some?
    ensures var after := WithPayloads(logical, payloads);
            && (forall i :: 0 <= i < |payloads| ==>
                  payloads[i].target in after && after[payloads[i].target] == payloads[i].content.value)
            && (forall p :: (forall i :: 0 <= i < |payloads| ==> p != payloads[i].target) ==>
                  SameFile(after, logical, p))
    decreases |payloads|
  {
    if payloads != [] {
      var front := payloads[..|payloads| - 1];
      WithPayloadsAt(logical, front);
      forall p | forall i :: 0 <= i < |payloads| ==> p != payloads[i].target
        ensures SameFile(WithPayloads(logical, payloads), logical, p)
      {
        assert p != payloads[|payloads| - 1].target;
        assert forall i :: 0 <= i < |front| ==> front[i] == payloads[i];
        assert SameFile(WithPayloads(logical, front), logical, p);
      }
    }
  }

  // ---------- installing ----------

  ghost predicate PartsReady(files: map<Path, Bytes>, logical: map<Path, Bytes>, items: seq<Item>, from: nat) {
    forall i :: from <= i < |items| ==>
      && items[i].target in logical && items[i].temporary in files
      && files[items[i].temporary] == logical[items[i].target]
  }

  lemma {:induction false} InstallSafe(env: Env, d: Disk, logical: map<Path, Bytes>, txn: string, items: seq<Item>,
      k: nat)
    requires Resumable(env, d.files, logical, txn, items) && k <= |items|
    requires forall i, j :: 0 <= i < j < |items| ==> items[i].target != items[j].target
    requires PartsReady(d.files, logical, items, k)
    requires forall i :: 0 <= i < k ==> Holds(d.files, logical, items[i].target)
    ensures var s := Install(env, d, items[k..]);
            && s.disk.journals == d.journals && s.disk.quarantine == d.quarantine && s.disk.log == d.log
            && Resumable(env, s.disk.files, logical, txn, items)
            && (s.status.Ok? ==> Agrees(s.disk.files, logical, {}))
    decreases |items| - k
  {
    if k == |items| {
      assert forall t :: t in Targets(items) ==> Holds(d.files, logical, t);
    } else {
      MoveKeepsResumable(env, d, logical, txn, items, k);
      var s := InstallOne(env, d, items[k]);
      assert items[k..][0] == items[k] && items[k..][1..] == items[k + 1..];
      if s.status.Ok? {
        forall i | 0 <= i < k + 1 ensures Holds(s.disk.files, logical, items[i].target) {
          assert items[i].target in Targets(items);
        }
        forall i | k + 1 <= i < |items|
          ensures items[i].temporary in s.disk.files && s.disk.files[items[i].temporary] == logical[items[i].target]
        {
          assert ItemReady(env, d.files, logical, txn, items[i]) && ItemReady(env, d.files, logical, txn, items[k]);
          PartPathIsPart(items[i].target, txn);
          if items[i].temporary == items[k].temporary {
            PartPathInjective(items[i].target, items[k].target, txn);
          }
        }
        InstallSafe(env, s.disk, logical, txn, items, k + 1);
      }
    }
  }

  // ---------- publishing ----------

  /** Everything a callback saw was the finished logical state. */
  ghost predicate CallbacksSaw(before: seq<Event>, after: seq<Event>, logical: map<Path, Bytes>) {
    && before <= after
    && forall i :: |before| <= i < |after| ==>
         !after[i].Quarantined? && Agrees(after[i].seen, logical, {})
  }

  lemma FinishSafe(env: Env, d: Disk, call: Call, logical: map<Path, Bytes>, items: seq<Item>)
    requires Inv(env, d, logical) && Pending(d) == {call.txn} && d.journals[call.txn].items == items
    requires forall i, j :: 0 <= i < j < |items| ==> items[i].target != items[j].target
    requires PartsReady(d.files, logical, items, 0)
    ensures var f := Finish(env, d, call, items);
            && Inv(env, f.disk, logical) && CallbacksSaw(d.log, f.disk.log, logical)
            && (f.status.Ok? ==> Pending(f.disk) == {})
            && (forall id :: id in Pending(f.disk) ==> id in Pending(d) && f.disk.journals[id] == d.journals[id])
  {
    InstallSafe(env, d, logical, call.txn, items, 0);
    assert items[0..] == items;
    var installed := Install(env, d, items);
    assert Pending(installed.disk) == Pending(d);
    if installed.status.Ok? {
      var announced := Announce(installed.disk, call);
      AnnounceFrame(installed.disk, call, logical);
      assert Pending(announced.disk) == Pending(d);
      if announced.status.Ok? {
        CommitCloses(env, announced.disk, logical, call.txn,
            Journal(call.txn, Committed, MarkReplaced(items), call.dependency));
      }
    }
  }

  lemma AnnounceFrame(d: Disk, call: Call, logical: map<Path, Bytes>)
    requires Agrees(d.files, logical, {})
    ensures var s := Announce(d, call).disk;
            && s.files == d.files && s.journals == d.journals && s.quarantine == d.quarantine
            && CallbacksSaw(d.log, s.log, logical)
  {}

  lemma CommitCloses(env: Env, d: Disk, logical: map<Path, Bytes>, id: string, journal: Journal)
    requires Inv(env, d, logical) && Pending(d) == {id} && Agrees(d.files, logical, {})
    requires journal.txn == id && journal.state.Committed?
    ensures var s := WriteJournal(d, id, journal);
            && Inv(env, s.disk, logical) && s.disk.log == d.log
            && (s.status.Ok? ==> Pending(s.disk) == {})
            && (forall k :: k in Pending(s.disk) ==> k in Pending(d) && s.disk.journals[k] == d.journals[k])
  {
    var s := WriteJournal(d, id, journal);
    if s.disk.journals != d.journals {
      assert forall k :: k in Pending(s.disk) ==> k in Pending(d) && k != id;
      assert Pending(s.disk) == {};
    } else {
      assert Pending(s.disk) == Pending(d);
    }
  }

  lemma {:induction false} AcceptedIsResumable(env: Env, d: Disk, p: Preparation, call: Call, logical: map<Path, Bytes>)
    requires Agrees(d.files, logical, {}) && Hygienic(call.payloads)
    requires p == Prepare(env, d, call.payloads, call.txn) && p.status.Ok?
    ensures var after := WithPayloads(logical, call.payloads);
            && Resumable(env, p.disk.files, after, call.txn, p.items)
            && PartsReady(p.disk.files, after, p.items, 0)
            && (forall i, j :: 0 <= i < j < |p.items| ==> p.items[i].target != p.items[j].target)
  {
    var payloads := call.payloads;
    PrepareSafe(env, d, payloads, call.txn);
    forall i | 0 <= i < |payloads|
      ensures payloads[i].content.Some? && ItemMatches(env, p.disk.files, payloads[i], call.txn, p.items[i])
    {}
    WithPayloadsAt(logical, payloads);
    var after := WithPayloads(logical, payloads);
    forall q | !IsPart(q) && q !in Targets(p.items)
      ensures Holds(p.disk.files, after, q)
    {
      forall i | 0 <= i < |payloads| ensures q != PartPath(payloads[i].target, call.txn) && q != payloads[i].target {
        PartPathIsPart(payloads[i].target, call.txn);
        assert p.items[i].target in Targets(p.items);
      }
      assert SameFile(p.disk.files, d.files, q) && SameFile(after, logical, q);
    }
  }

  lemma {:induction false} PrepareKeepsVisible(
    env: Env, d: Disk, payloads: seq<Payload>, txn: string, logical: map<Path, Bytes>)
    requires Agrees(d.files, logical, {}) && Hygienic(payloads)
    ensures Agrees(Prepare(env, d, payloads, txn).disk.files, logical, {})
  {
    PrepareSafe(env, d, payloads, txn);
    var files := Prepare(env, d, payloads, txn).disk.files;
    forall q | !IsPart(q) ensures Holds(files, logical, q) {
      forall i | 0 <= i < |payloads| ensures q != PartPath(payloads[i].target, txn) {
        PartPathIsPart(payloads[i].target, txn);
      }
      assert SameFile(files, d.files, q);
    }
  }

  ghost function After(p: Published, call: Call, logical: map<Path, Bytes>): map<Path, Bytes> {
    if p.accepted then WithPayloads(logical, call.payloads) else logical
  }

  /**
   Publishing, interrupted anywhere: the visible files are the old logical state or
   a roll-forward towards the new one; success means accepted and finished; and no
   callback ever runs before every target holds its new content.
   */
  lemma {:induction false} PublishSafe(env: Env, d: Disk, call: Call, db: Database, logical: map<Path, Bytes>)
    requires Inv(env, d, logical) && Pending(d) == {} && Hygienic(call.payloads)
    ensures var p := Publish(env, d, call, db);
            && Inv(env, p.disk, After(p, call, logical))
            && CallbacksSaw(d.log, p.disk.log, WithPayloads(logical, call.payloads))
            && (p.status.Ok? ==> p.accepted)
            && (p.status.Ok? || !p.accepted ==> Pending(p.disk) == {})
            && (forall id :: id in Pending(p.disk) ==>
                  id == call.txn && p.disk.journals[id].dependency == call.dependency)
  {
    var p := Publish(env, d, call, db);
    if call.payloads != [] && CycleCommitted(call.dependency, db) {
      var prep := Prepare(env, d, call.payloads, call.txn);
      PrepareSafe(env, d, call.payloads, call.txn);
      PrepareKeepsVisible(env, d, call.payloads, call.txn, logical);
      assert Pending(prep.disk) == {};
      if prep.status.Ok? {
        var after := WithPayloads(logical, call.payloads);
        AcceptedIsResumable(env, d, prep, call, logical);
        AcceptSafe(env, prep, call, logical, after);
        var j := WriteJournal(prep.disk, call.txn, Journal(call.txn, Prepared, prep.items, call.dependency));
        if TakesEffect(NextOutcome(prep.disk)) && j.status.Ok? {
          FinishSafe(env, j.disk, call, after, prep.items);
        }
      }
    }
  }

  /** The journal write decides: with it the new files are owed, without it nothing has happened. */
  lemma AcceptSafe(env: Env, prep: Preparation, call: Call, logical: map<Path, Bytes>, after: map<Path, Bytes>)
    requires Inv(env, prep.disk, logical) && Pending(prep.disk) == {}
    requires Resumable(env, prep.disk.files, after, call.txn, prep.items)
    requires PartsReady(prep.disk.files, after, prep.items, 0)
    ensures var j := WriteJournal(prep.disk, call.txn, Journal(call.txn, Prepared, prep.items, call.dependency));
            if TakesEffect(NextOutcome(prep.disk)) then
              && Pending(j.disk) == {call.txn} && Inv(env, j.disk, after) && j.disk.log == prep.disk.log
              && j.disk.journals[call.txn].items == prep.items
              && j.disk.journals[call.txn].dependency == call.dependency
              && PartsReady(j.disk.files, after, prep.items, 0)
            else
              Pending(j.disk) == {} && Inv(env, j.disk, logical) && j.disk.log == prep.disk.log && !j.status.Ok?
  {
    var j := WriteJournal(prep.disk, call.txn, Journal(call.txn, Prepared, prep.items, call.dependency));
    if TakesEffect(NextOutcome(prep.disk)) {
      assert Pending(j.disk) == {call.txn};
    } else {
      assert Pending(j.disk) == {};
    }
  }

  // ---------- runs ----------

  /** One process: it recovers, and publishes only if recovery completed. */
  datatype Session = Session(
    recoverScript: seq<Outcome>, recoverDb: Database, order: seq<string>,
    publishScript: seq<Outcome>, publishDb: Database, call: Option<Call>)

  function RunSession(env: Env, d: Disk, s: Session): Published {
    var r := Recover(env, d.(script := s.recoverScript), s.order, s.recoverDb);
    if !r.status.Ok? || s.call.None? then Published(r.disk, r.status, false)
    else Publish(env, r.disk.(script := s.publishScript), s.call.value, s.publishDb)
  }

  function Run(env: Env, d: Disk, sessions: seq<Session>): Disk
    decreases |sessions|
  {
    if sessions == [] then d else Run(env, RunSession(env, d, sessions[0]).disk, sessions[1..])
  }

  /** The logical state after a run: accepted publications applied in order. */
  ghost function Entitled(env: Env, d: Disk, logical: map<Path, Bytes>, sessions: seq<Session>): map<Path, Bytes>
    decreases |sessions|
  {
    if sessions == [] then logical
    else
      var p := RunSession(env, d, sessions[0]);
      var next := if sessions[0].call.Some? then After(p, sessions[0].call.value, logical) else logical;
      Entitled(env, p.disk, next, sessions[1..])
  }

  /** Each listing is complete and each call is hygienic. */
  ghost predicate Legal(env: Env, d: Disk, sessions: seq<Session>)
    decreases |sessions|
  {
    sessions == [] ||
    (&& (forall id :: id in d.journals ==> id in sessions[0].order)
     && (sessions[0].call.Some? ==> Hygienic(sessions[0].call.value.payloads))
     && Legal(env, RunSession(env, d, sessions[0]).disk, sessions[1..]))
  }

  lemma {:induction false} SessionSafe(env: Env, d: Disk, logical: map<Path, Bytes>, s: Session)
    requires Injective(env) && Inv(env, d, logical) && Legal(env, d, [s])
    ensures var p := RunSession(env, d, s);
            && d.log <= p.disk.log
            && (NothingQuarantined(d.log, p.disk.log) ==>
                  && Inv(env, p.disk, if s.call.Some? then After(p, s.call.value, logical) else logical)
                  && (p.status.Ok? ==> Pending(p.disk) == {})
                  && (forall id :: id in Pending(p.disk) ==>
                        || (id in Pending(d) && p.disk.journals[id] == d.journals[id])
                        || (&& s.call.Some? && p.disk.journals[id].dependency == s.call.value.dependency
                            && CycleCommitted(s.call.value.dependency, s.publishDb))))
            && (NoErrors(s.recoverScript) && Backed(d, s.recoverDb) ==> NothingQuarantined(d.log, p.disk.log))
  {
    var d0 := d.(script := s.recoverScript);
    assert Pending(d0) == Pending(d);
    RecoverSafe(env, d0, logical, s.order, s.recoverDb);
    var r := Recover(env, d0, s.order, s.recoverDb);
    if r.status.Ok? && NothingQuarantined(d.log, r.disk.log) {
      assert Pending(r.disk) == {};
      if s.call.Some? {
        var d1 := r.disk.(script := s.publishScript);
        assert Pending(d1) == {};
        PublishSafe(env, d1, s.call.value, s.publishDb, logical);
      }
    } else if r.status.Ok? && s.call.Some? {
      PublishLogGrows(env, r.disk.(script := s.publishScript), s.call.value, s.publishDb);
      var p := RunSession(env, d, s);
      assert forall i :: 0 <= i < |r.disk.log| ==> p.disk.log[i] == r.disk.log[i];
    }
  }

  lemma PublishLogGrows(env: Env, d: Disk, call: Call, db: Database)
    requires Hygienic(call.payloads)
    ensures d.log <= Publish(env, d, call, db).disk.log
  {
    var prep := Prepare(env, d, call.payloads, call.txn);
    PrepareSafe(env, d, call.payloads, call.txn);
    if prep.status.Ok? {
      var journal := Journal(call.txn, Prepared, prep.items, call.dependency);
      FinishLog(env, WriteJournal(prep.disk, call.txn, journal).disk, call, prep.items);
    }
  }

  lemma FinishLog(env: Env, d: Disk, call: Call, items: seq<Item>)
    ensures d.log <= Finish(env, d, call, items).disk.log
  {
    InstallLog(env, d, items);
  }

  lemma {:induction false} InstallLog(env: Env, d: Disk, items: seq<Item>)
    ensures Install(env, d, items).disk.log == d.log
    decreases |items|
  {
    if items != [] && InstallOne(env, d, items[0]).status.Ok? {
      InstallLog(env, InstallOne(env, d, items[0]).disk, items[1..]);
    }
  }

  lemma {:induction false} RunLogGrows(env: Env, d: Disk, sessions: seq<Session>)
    requires Legal(env, d, sessions)
    ensures d.log <= Run(env, d, sessions).log
    decreases |sessions|
  {
    if sessions != [] {
      var s := sessions[0];
      RecoverLogGrows(env, d.(script := s.recoverScript), s.order, s.recoverDb);
      var r := Recover(env, d.(script := s.recoverScript), s.order, s.recoverDb);
      if r.status.Ok? && s.call.Some? {
        PublishLogGrows(env, r.disk.(script := s.publishScript), s.call.value, s.publishDb);
      }
      RunLogGrows(env, RunSession(env, d, s).disk, sessions[1..]);
    }
  }

  /** As long as no journal was quarantined, a run of crashing processes keeps the invariant. */
  lemma {:induction false} RunSafe(env: Env, d: Disk, logical: map<Path, Bytes>, sessions: seq<Session>)
    requires Injective(env) && Inv(env, d, logical) && Legal(env, d, sessions)
    requires NothingQuarantined(d.log, Run(env, d, sessions).log)
    ensures Inv(env, Run(env, d, sessions), Entitled(env, d, logical, sessions))
    decreases |sessions|
  {
    if sessions != [] {
      var p := RunSession(env, d, sessions[0]);
      SessionSafe(env, d, logical, sessions[0]);
      RunLogGrows(env, p.disk, sessions[1..]);
      var last := Run(env, d, sessions).log;
      assert forall i :: 0 <= i < |p.disk.log| ==> p.disk.log[i] == last[i];
      assert NothingQuarantined(d.log, p.disk.log);
      var next := if sessions[0].call.Some? then After(p, sessions[0].call.value, logical) else logical;
      RunSafe(env, p.disk, next, sessions[1..]);
    }
  }

  ghost predicate AllCommitted(cycles: set<string>, db: Database) {
    forall c :: c in cycles ==> CycleCommitted(Some(c), db)
  }

  /** The cycle on which a call depends and which was committed when it published. */
  ghost function CycleOf(s: Session): set<string> {
    if s.call.Some? && s.call.value.dependency.Some? && CycleCommitted(s.call.value.dependency, s.publishDb)
    then {s.call.value.dependency.value} else {}
  }

  /** Recovery meets no I/O error, and the cycles on which earlier publications depend stay committed. */
  ghost predicate Reliable(sessions: seq<Session>, cycles: set<string>)
    decreases |sessions|
  {
    sessions == [] ||
    (&& NoErrors(sessions[0].recoverScript)
     && AllCommitted(cycles, sessions[0].recoverDb)
     && Reliable(sessions[1..], cycles + CycleOf(sessions[0])))
  }

  ghost predicate DependsOn(d: Disk, cycles: set<string>) {
    forall id :: id in Pending(d) && d.journals[id].dependency.Some? ==> d.journals[id].dependency.value in cycles
  }

  lemma {:induction false} ReliableRunsQuarantineNothing(
    env: Env, d: Disk, logical: map<Path, Bytes>, sessions: seq<Session>, cycles: set<string>)
    requires Injective(env) && Inv(env, d, logical) && Legal(env, d, sessions)
    requires Reliable(sessions, cycles) && DependsOn(d, cycles)
    ensures NothingQuarantined(d.log, Run(env, d, sessions).log)
    decreases |sessions|
  {
    if sessions != [] {
      var p := RunSession(env, d, sessions[0]);
      SessionSafe(env, d, logical, sessions[0]);
      var next := if sessions[0].call.Some? then After(p, sessions[0].call.value, logical) else logical;
      ReliableRunsQuarantineNothing(env, p.disk, next, sessions[1..], cycles + CycleOf(sessions[0]));
      var last := Run(env, d, sessions).log;
      assert forall i :: |d.log| <= i < |last| ==> (if i < |p.disk.log| then last[i] == p.disk.log[i] else true);
    }
  }

  /**
   The protocol's promise.  Start clean, let any number of processes recover and
   publish, each dying or failing anywhere, and end with a recovery that completes:
   unless a journal was quarantined on the way, none is left uncommitted and the visible
   files are exactly the accepted publications applied in order, none of them in part.
   Nothing is quarantined when recovery meets no I/O error and committed cycles stay so.
   */
  lemma {:induction false} CrashRecovery(env: Env, d: Disk, sessions: seq<Session>, last: Session)
    requires Injective(env) && Pending(d) == {} && (forall id :: id in d.journals ==> d.journals[id].txn == id)
    requires Legal(env, d, sessions + [last]) && last.call.None?
    requires RunSession(env, Run(env, d, sessions), last).status.Ok?
    ensures var end := Run(env, d, sessions + [last]);
            && (NothingQuarantined(d.log, end.log) ==>
                  Pending(end) == {} && Agrees(end.files, Entitled(env, d, d.files, sessions), {}))
            && (Reliable(sessions + [last], {}) ==> NothingQuarantined(d.log, end.log))
  {
    var middle := Run(env, d, sessions);
    var end := RunSession(env, middle, last).disk;
    LegalPrefix(env, d, sessions, last);
    RunAppend(env, d, sessions, last);
    if Reliable(sessions + [last], {}) {
      ReliableRunsQuarantineNothing(env, d, d.files, sessions + [last], {});
    }
    RunLogGrows(env, d, sessions);
    RunLogGrows(env, middle, [last]);
    assert Run(env, middle, [last]) == end by {
      assert [last][1..] == [];
    }
    if NothingQuarantined(d.log, end.log) {
      assert forall i :: 0 <= i < |middle.log| ==> middle.log[i] == end.log[i];
      assert NothingQuarantined(d.log, middle.log);
      RunSafe(env, d, d.files, sessions);
      SessionSafe(env, middle, Entitled(env, d, d.files, sessions), last);
      assert forall i :: |middle.log| <= i < |end.log| ==> !end.log[i].Quarantined?;
    }
  }

  lemma {:induction false} RunAppend(env: Env, d: Disk, sessions: seq<Session>, last: Session)
    ensures Run(env, d, sessions + [last]) == RunSession(env, Run(env, d, sessions), last).disk
    decreases |sessions|
  {
    if sessions == [] {
      assert (sessions + [last])[1..] == [];
    } else {
      assert (sessions + [last])[1..] == sessions[1..] + [last];
      RunAppend(env, RunSession(env, d, sessions[0]).disk, sessions[1..], last);
    }
  }

  lemma {:induction false} LegalPrefix(env: Env, d: Disk, sessions: seq<Session>, last: Session)
    requires Legal(env, d, sessions + [last])
    ensures Legal(env, d, sessions) && Legal(env, Run(env, d, sessions), [last])
    decreases |sessions|
  {
    var all := sessions + [last];
    if sessions == [] {
      assert all == [last];
    } else {
      assert all[1..] == sessions[1..] + [last] && all[0] == sessions[0];
      LegalPrefix(env, RunSession(env, d, sessions[0]).disk, sessions[1..], last);
    }
  }
}
