/** Publication over the cycle store (src/EdgeWARN/ctam/publication.py, src/EdgeWARN/stormprob/database.py): the store
    keeps committed cycles committed, so that recovery finds them. */
module CommittedCycles {
  import opened Wrappers
  import opened Publication
  import opened PublicationSafety
  import opened PublicationRuns
  import CycleStore
  import CycleStoreTheorems
  import CycleStoreContents

  /** What the publication reads of a store that it can open: the state of each cycle. */
  function Reading(db: CycleStore.Store): Database {
    Some(map cycle | cycle in db.cycles :: db.cycles[cycle].state)
  }

  /** Requests never make a committed cycle uncommitted. */
  lemma {:induction false} CommittedStays(
    stamps: CycleStore.Env, db: CycleStore.Store, requests: seq<CycleStore.Request>, dependency: Option<string>)
    requires CycleCommitted(dependency, Reading(db))
    ensures CycleCommitted(dependency, Reading(CycleStore.ServeAll(stamps, db, requests)))
  {
    if dependency.Some? {
      CycleStoreTheorems.CyclesStay(stamps, db, requests, dependency.value);
    }
  }

  /** The requests that the store serves before a session recovers, and before it publishes. */
  datatype Traffic = Traffic(beforeRecovery: seq<CycleStore.Request>, beforePublication: seq<CycleStore.Request>)

  /** Whenever a session can open the database, it reads the store as the requests so far have left it. */
  ghost predicate ReadsStore(
    stamps: CycleStore.Env, db: CycleStore.Store, sessions: seq<Session>, traffic: seq<Traffic>)
    decreases |sessions|
  {
    && |traffic| == |sessions|
    && (sessions == [] ||
        var atRecovery := CycleStore.ServeAll(stamps, db, traffic[0].beforeRecovery);
        var atPublication := CycleStore.ServeAll(stamps, atRecovery, traffic[0].beforePublication);
        && (sessions[0].recoverDb.Some? ==> sessions[0].recoverDb == Reading(atRecovery))
        && (sessions[0].publishDb.Some? ==> sessions[0].publishDb == Reading(atPublication))
        && ReadsStore(stamps, atPublication, sessions[1..], traffic[1..]))
  }

  /** Recovery meets no I/O error and can open the database. */
  ghost predicate Undisturbed(sessions: seq<Session>) {
    forall s :: s in sessions ==> NoErrors(s.recoverScript) && s.recoverDb.Some?
  }

  lemma {:induction false} StoreMakesRunsReliable(
    stamps: CycleStore.Env, db: CycleStore.Store, sessions: seq<Session>, traffic: seq<Traffic>, cycles: set<string>)
    requires ReadsStore(stamps, db, sessions, traffic) && Undisturbed(sessions)
    requires AllCommitted(cycles, Reading(db))
    ensures Reliable(sessions, cycles)
    decreases |sessions|
  {
    if sessions != [] {
      var s := sessions[0];
      var atRecovery := CycleStore.ServeAll(stamps, db, traffic[0].beforeRecovery);
      var atPublication := CycleStore.ServeAll(stamps, atRecovery, traffic[0].beforePublication);
      assert s in sessions;
      forall c | c in cycles
        ensures CycleCommitted(Some(c), s.recoverDb) && CycleCommitted(Some(c), Reading(atPublication))
      {
        CommittedStays(stamps, db, traffic[0].beforeRecovery, Some(c));
        CommittedStays(stamps, atRecovery, traffic[0].beforePublication, Some(c));
      }
      StoreMakesRunsReliable(stamps, atPublication, sessions[1..], traffic[1..], cycles + CycleOf(s));
    }
  }

  /**
   Publication and database together.  Let processes recover and publish, dying or failing
   anywhere outside recovery, while the store serves any commits and imports in between.
   As long as every recovery can open the database and meets no I/O error, no journal is
   ever quarantined, and a recovery that completes leaves exactly the accepted
   publications, none of them in part.
   */
  lemma {:induction false} StoreBackedRecovery(
    env: Env, d: Disk, sessions: seq<Session>, last: Session,
    stamps: CycleStore.Env, db: CycleStore.Store, traffic: seq<Traffic>)
    requires Injective(env) && Pending(d) == {} && (forall id :: id in d.journals ==> d.journals[id].txn == id)
    requires Legal(env, d, sessions + [last]) && last.call.None?
    requires RunSession(env, Run(env, d, sessions), last).status.Ok?
    requires ReadsStore(stamps, db, sessions + [last], traffic) && Undisturbed(sessions + [last])
    ensures var end := Run(env, d, sessions + [last]);
            && NothingQuarantined(d.log, end.log)
            && Pending(end) == {} && Agrees(end.files, Entitled(env, d, d.files, sessions), {})
  {
    StoreMakesRunsReliable(stamps, db, sessions + [last], traffic, {});
    CrashRecovery(env, d, sessions, last);
  }

  // ---------- which requests let a publication depend on their cycle ----------

  /** An accepted commit makes its cycle one that a publication may depend on; an import makes its own cycle one that no
      publication may depend on. */
  lemma CommitEnablesPublication(
    stamps: CycleStore.Env, db: CycleStore.Store, call: CycleStore.CycleCall, file: CycleStore.LegacyFile)
    ensures CycleStore.CommitCycle(stamps, db, call).Some? ==>
              CycleCommitted(Some(call.cycle), Reading(CycleStore.CommitCycle(stamps, db, call).value))
    ensures CycleStore.ImportLegacy(stamps, db, file).Some? && file.path !in db.sources ==>
              !CycleCommitted(Some("legacy:" + file.digest), Reading(CycleStore.ImportLegacy(stamps, db, file).value))
  {
    var key, k := CycleStore.ObservationKey("", "", ""), CycleStore.ForecastKey("", "", 0, "");
    if CycleStore.CommitCycle(stamps, db, call).Some? {
      CycleStoreContents.CommitExact(stamps, db, call, key, k);
    }
    if file.path !in db.sources {
      CycleStoreContents.ImportExact(stamps, db, file, key, k);
    }
  }
}
