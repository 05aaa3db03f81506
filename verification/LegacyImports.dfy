/** Exactly what a legacy import leaves alone (src/EdgeWARN/stormprob/database.py). */
module LegacyImports {
  import opened Numbers
  import opened Wrappers
  import opened CycleStore
  import opened CycleStoreTheorems
  import opened CycleStoreContents

  // ---------- rows that no entry names ----------

  ghost predicate AnyNames(env: Env, entries: seq<Cell>, key: ObservationKey) {
    exists c :: c in entries && Names(env, c, key)
  }

  ghost predicate AnyPlaces(env: Env, entries: seq<Cell>, k: ForecastKey) {
    exists c :: c in entries && Places(env, c, k)
  }

  /** One upsert, seen from one observation key and one forecast key. */
  lemma UpsertRows(env: Env, db: Store, c: Cell, cycle: string, key: ObservationKey, k: ForecastKey)
    requires Storable(c) && c.record.Some? && UpsertObservation(env, db, c.id.value, c.record.value, cycle).Some?
    ensures var next := UpsertObservation(env, db, c.id.value, c.record.value, cycle).value;
            && (if Names(env, c, key)
                then key in next.observations && next.observations[key] == cycle
                else SameObservation(db, next, key))
            && (if Places(env, c, k)
                then k in next.forecasts && next.forecasts[k].cycle == cycle
                else SameForecast(db, next, k))
  {
    var record := c.record.value;
    PutPendingRow(db.forecasts, c.id.value, env.time(record.analysisTime).value, LEAD_LIST, cycle, record.ready, k);
  }

  /** After the entries a row belongs to the import if some entry names it, and is unchanged otherwise. */
  lemma {:induction false} EntriesRows(
    env: Env, db: Store, cycle: string, entries: seq<Cell>, key: ObservationKey, k: ForecastKey)
    requires AllStorable(entries) && StoreEntries(env, db, cycle, entries).Some?
    ensures var out := StoreEntries(env, db, cycle, entries).value;
            && (if AnyNames(env, entries, key)
                then key in out.observations && out.observations[key] == cycle
                else SameObservation(db, out, key))
            && (if AnyPlaces(env, entries, k)
                then k in out.forecasts && out.forecasts[k].cycle == cycle
                else SameForecast(db, out, k))
    decreases |entries|
  {
    if entries != [] {
      var c, rest := entries[0], entries[1..];
      var next := UpsertObservation(env, db, c.id.value, c.record.value, cycle).value;
      assert entries == [c] + rest;
      assert AnyNames(env, entries, key) <==> Names(env, c, key) || AnyNames(env, rest, key);
      assert AnyPlaces(env, entries, k) <==> Places(env, c, k) || AnyPlaces(env, rest, k);
      UpsertRows(env, db, c, cycle, key, k);
      EntriesRows(env, next, cycle, rest, key, k);
    }
  }

  lemma ImportRows(env: Env, db: Store, file: LegacyFile, key: ObservationKey, k: ForecastKey)
    requires ImportLegacy(env, db, file).Some? && file.path !in db.sources
    ensures var out := ImportLegacy(env, db, file).value;
            && (if AnyNames(env, file.entries, key)
                then key in out.observations && out.observations[key] == "legacy:" + file.digest
                else SameObservation(db, out, key))
            && (if AnyPlaces(env, file.entries, k)
                then k in out.forecasts && out.forecasts[k].cycle == "legacy:" + file.digest
                else SameForecast(db, out, k))
    ensures "legacy:" + file.digest !in db.cycles
  {
    var cycle := "legacy:" + file.digest;
    var begun := ImportBegun(env, db, file);
    EntriesRows(env, begun, cycle, file.entries, key, k);
  }

  // ---------- when nothing is overwritten ----------

  ghost predicate KeepsObservations(a: Store, b: Store) {
    forall key :: key in a.observations ==> SameObservation(a, b, key)
  }

  ghost predicate KeepsForecasts(a: Store, b: Store) {
    forall k :: k in a.forecasts ==> SameForecast(a, b, k)
  }

  /**
   The documented "no overwrites".  A first import leaves an existing observation, with its features and profile, as
   it was exactly when no entry names it, and an existing forecast row exactly when no entry shares the cell and time
   of a placeholder; otherwise the row changes owner.
   */
  lemma RowSurvivesExactly(env: Env, db: Store, file: LegacyFile, key: ObservationKey, k: ForecastKey)
    requires StoreInv(db) && ImportLegacy(env, db, file).Some? && file.path !in db.sources
    ensures var out := ImportLegacy(env, db, file).value;
            && (key in db.observations ==> (SameObservation(db, out, key) <==> !AnyNames(env, file.entries, key)))
            && (k in db.forecasts ==> (SameForecast(db, out, k) <==> !AnyPlaces(env, file.entries, k)))
  {
    ImportRows(env, db, file, key, k);
  }

  /** All existing observations survive if and only if no entry names one of them, all existing forecast rows if and
      only if no entry shares the cell and time of a placeholder; and the second condition implies the first. */
  lemma ImportOverwritesExact(env: Env, db: Store, file: LegacyFile)
    requires StoreInv(db) && ImportLegacy(env, db, file).Some? && file.path !in db.sources
    ensures var out := ImportLegacy(env, db, file).value;
            && (KeepsObservations(db, out) <==>
                  forall key :: key in db.observations ==> !AnyNames(env, file.entries, key))
            && (KeepsForecasts(db, out) <==> forall k :: k in db.forecasts ==> !AnyPlaces(env, file.entries, k))
            && (KeepsForecasts(db, out) ==> KeepsObservations(db, out))
  {
    var out := ImportLegacy(env, db, file).value;
    var anyKey, anyForecast := ObservationKey("", "", ""), ForecastKey("", "", 0, "");
    forall key | key in db.observations ensures SameObservation(db, out, key) <==> !AnyNames(env, file.entries, key) {
      RowSurvivesExactly(env, db, file, key, anyForecast);
    }
    forall k | k in db.forecasts ensures SameForecast(db, out, k) <==> !AnyPlaces(env, file.entries, k) {
      RowSurvivesExactly(env, db, file, anyKey, k);
    }
    forall key | key in db.observations && AnyNames(env, file.entries, key)
      ensures exists k :: k in db.forecasts && AnyPlaces(env, file.entries, k)
    {
      var k := ForecastKey(key.cell, key.time, LEAD_LIST[0], PENDING_MODEL);
      assert k in db.forecasts;
      var c :| c in file.entries && Names(env, c, key);
      assert Places(env, c, k);
    }
  }

  // ---------- a row that is lost ----------

  function PlainVector(n: nat): seq<Number> {
    seq(n, _ => Finite(0.0))
  }

  function PlainCell(time: string): Cell {
    Cell(Some("7"), Some(time),
         Some(Record(time, "v1", PlainVector(FEATURE_COUNT), PlainVector(RAY_COUNT), Finite(1.0), None, true)))
  }

  const PLAIN := Env(t => Some(t))

  /** The store after one committed cycle "c" with the plain cell. */
  function PlainStore(time: string): Store {
    ServeAll(PLAIN, EMPTY_STORE, [Commit(CycleCall("c", time, [PlainCell(time)], "", Preserve, []))])
  }

  /** A file whose only entry repeats that cell. */
  function PlainFile(time: string): LegacyFile {
    LegacyFile("old.json", "d", [PlainCell(time)], time)
  }

  lemma PlainStoreHolds(time: string)
    requires time != ""
    ensures PlainStore(time).cycles.Keys == {"c"} && PlainStore(time).sources == map[]
    ensures var key := ObservationKey("7", time, "v1");
            key in PlainStore(time).observations && PlainStore(time).observations[key] == "c"
  {
    var c := PlainCell(time);
    var call := CycleCall("c", time, [c], "", Preserve, []);
    var begun := EMPTY_STORE.(cycles := map["c" := Cycle(time, "inputs-committed", "")]);
    assert ValidRecord(PLAIN, c.record.value);
    var stored := UpsertObservation(PLAIN, begun, "7", c.record.value, "c").value;
    assert StoreCells(PLAIN, begun, "c", Preserve, [c]) == Some(stored);
    assert CommitCycle(PLAIN, EMPTY_STORE, call) == Some(stored);
    var requests := [Commit(call)];
    assert Serve(PLAIN, EMPTY_STORE, requests[0]) == stored;
    assert requests[1..] == [] && ServeAll(PLAIN, stored, requests[1..]) == stored;
    assert ServeAll(PLAIN, EMPTY_STORE, requests) == stored;
  }

  /** The cycle's row is lost to the import: the store is one that a commit has made, and the file is accepted. */
  lemma ImportCanOverwrite(time: string)
    requires time != ""
    ensures var key := ObservationKey("7", time, "v1");
            var r := ImportLegacy(PLAIN, PlainStore(time), PlainFile(time));
            && key in PlainStore(time).observations && PlainStore(time).observations[key] == "c"
            && r.Some? && key in r.value.observations && r.value.observations[key] == "legacy:" + "d"
  {
    var db, file, c := PlainStore(time), PlainFile(time), PlainCell(time);
    PlainStoreHolds(time);
    var cycle := "legacy:" + "d";
    assert cycle[0] != "c"[0];
    var begun := db.(cycles := db.cycles[cycle := Cycle(time, "legacy-imported", "")]);
    assert ValidRecord(PLAIN, c.record.value);
    assert StoreEntries(PLAIN, begun, cycle, file.entries).Some?;
    assert c in file.entries && Names(PLAIN, c, ObservationKey("7", time, "v1"));
    ImportRows(PLAIN, db, file, ObservationKey("7", time, "v1"), ForecastKey("", "", 0, ""));
  }
}
