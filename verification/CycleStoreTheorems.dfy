/** Table invariants of the cycle store over every sequence of commits and imports. */
module CycleStoreTheorems {
  import opened Wrappers
  import opened CycleStore

  // ---------- forecast groups stay whole ----------

  /** Every (cell, time, model) has either no rows or exactly the leads 15, 30, 45 and 60. */
  ghost predicate Whole(forecasts: map<ForecastKey, Row>) {
    forall k :: k in forecasts ==> k.lead in LEADS && forall lead :: lead in LEADS ==> k.(lead := lead) in forecasts
  }

  lemma {:induction false} PutPendingKeys(
    forecasts: map<ForecastKey, Row>, cell: string, time: string, leads: seq<int>, cycle: string, ready: bool)
    ensures var out := PutPending(forecasts, cell, time, leads, cycle, ready);
            && (forall k :: k in out <==>
                  || k in forecasts
                  || (exists i :: 0 <= i < |leads| && k == ForecastKey(cell, time, leads[i], PENDING_MODEL)))
            && (forall k :: k in forecasts && k.model != PENDING_MODEL ==> out[k] == forecasts[k])
            && (forall k | k in out && k.model == PENDING_MODEL && k.cell == cell && k.time == time ::
                  k.lead in leads ==> out[k].cycle == cycle)
    decreases |leads|
  {
    if leads != [] {
      var key := ForecastKey(cell, time, leads[0], PENDING_MODEL);
      var next := forecasts[key := PendingRow(GetRow(forecasts, key), cycle, ready)];
      PutPendingKeys(next, cell, time, leads[1..], cycle, ready);
      PutPendingFirst(next, cell, time, leads[1..], cycle, ready, key);
      var out := PutPending(forecasts, cell, time, leads, cycle, ready);
      forall k
        ensures k in out <==>
                  || k in forecasts
                  || (exists i :: 0 <= i < |leads| && k == ForecastKey(cell, time, leads[i], PENDING_MODEL))
      {
        if exists i :: 0 <= i < |leads[1..]| && k == ForecastKey(cell, time, leads[1..][i], PENDING_MODEL) {
          var i :| 0 <= i < |leads[1..]| && k == ForecastKey(cell, time, leads[1..][i], PENDING_MODEL);
          assert k == ForecastKey(cell, time, leads[i + 1], PENDING_MODEL);
        }
        if exists i :: 0 <= i < |leads| && k == ForecastKey(cell, time, leads[i], PENDING_MODEL) {
          var i :| 0 <= i < |leads| && k == ForecastKey(cell, time, leads[i], PENDING_MODEL);
          assert i > 0 ==> k == ForecastKey(cell, time, leads[1..][i - 1], PENDING_MODEL);
        }
      }
    }
  }

  /** A placeholder written once keeps its cycle while the other leads are written. */
  lemma {:induction false} PutPendingFirst(
    forecasts: map<ForecastKey, Row>, cell: string, time: string, leads: seq<int>, cycle: string, ready: bool,
        key: ForecastKey)
    requires key in forecasts && forecasts[key].cycle == cycle
    ensures var out := PutPending(forecasts, cell, time, leads, cycle, ready); key in out && out[key].cycle == cycle
    decreases |leads|
  {
    if leads != [] {
      var k := ForecastKey(cell, time, leads[0], PENDING_MODEL);
      PutPendingFirst(forecasts[k := PendingRow(GetRow(forecasts, k), cycle, ready)], cell, time, leads[1..], cycle,
          ready, key);
    }
  }

  lemma {:induction false} PutPendingWhole(
    forecasts: map<ForecastKey, Row>, cell: string, time: string, cycle: string, ready: bool)
    requires Whole(forecasts)
    ensures Whole(PutPending(forecasts, cell, time, LEAD_LIST, cycle, ready))
    ensures forall lead :: lead in LEADS ==>
              ForecastKey(cell, time, lead, PENDING_MODEL) in PutPending(forecasts, cell, time, LEAD_LIST, cycle, ready)
  {
    PutPendingKeys(forecasts, cell, time, LEAD_LIST, cycle, ready);
    var out := PutPending(forecasts, cell, time, LEAD_LIST, cycle, ready);
    forall lead | lead in LEADS ensures ForecastKey(cell, time, lead, PENDING_MODEL) in out {
      assert LEAD_LIST[0] == 15 && LEAD_LIST[1] == 30 && LEAD_LIST[2] == 45 && LEAD_LIST[3] == 60;
      var i := if lead == 15 then 0 else if lead == 30 then 1 else if lead == 45 then 2 else 3;
      assert ForecastKey(cell, time, lead, PENDING_MODEL) == ForecastKey(cell, time, LEAD_LIST[i], PENDING_MODEL);
    }
    forall k | k in out ensures k.lead in LEADS && forall lead :: lead in LEADS ==> k.(lead := lead) in out {
      if k !in forecasts {
        var i :| 0 <= i < |LEAD_LIST| && k == ForecastKey(cell, time, LEAD_LIST[i], PENDING_MODEL);
        forall lead | lead in LEADS ensures k.(lead := lead) in out {
          assert k.(lead := lead) == ForecastKey(cell, time, lead, PENDING_MODEL);
        }
      }
    }
  }

  lemma DropModelsWhole(forecasts: map<ForecastKey, Row>, cell: string, time: string)
    requires Whole(forecasts)
    ensures Whole(DropModels(forecasts, cell, time))
  {}

  // ---------- normalisation and grouping ----------

  ghost predicate DistinctKeys(env: Env, forecasts: seq<Forecast>) {
    && (forall i :: 0 <= i < |forecasts| ==> KeyOf(env, forecasts[i]).Some?)
    && forall i, j :: 0 <= i < j < |forecasts| ==> KeyOf(env, forecasts[i]) != KeyOf(env, forecasts[j])
  }

  lemma {:induction false} PriorExact(env: Env, unique: seq<Forecast>, key: ForecastKey)
    ensures match Prior(env, unique, key)
            case None => forall i :: 0 <= i < |unique| ==> KeyOf(env, unique[i]) != Some(key)
            case Some(f) => f in unique && KeyOf(env, f) == Some(key)
    decreases |unique|
  {
    if unique != [] {
      PriorExact(env, unique[1..], key);
    }
  }

  /** Two entries that share a key but differ, or an entry whose time does not parse. */
  ghost predicate Conflicting(env: Env, forecasts: seq<Forecast>) {
    || (exists f :: f in forecasts && KeyOf(env, f).None?)
    || (exists f, g :: f in forecasts && g in forecasts && f != g && KeyOf(env, f) == KeyOf(env, g))
  }

  lemma {:induction false} NormalizeFromExact(env: Env, unique: seq<Forecast>, rest: seq<Forecast>)
    requires DistinctKeys(env, unique)
    ensures match NormalizeFrom(env, unique, rest)
            case None => Conflicting(env, unique + rest)
            case Some(r) => DistinctKeys(env, r) && (forall f :: f in r <==> f in unique + rest)
    decreases |rest|
  {
    if rest == [] {
      assert unique + rest == unique;
    } else {
      var f := rest[0];
      assert f in unique + rest;
      if KeyOf(env, f).Some? {
        var key := KeyOf(env, f).value;
        PriorExact(env, unique, key);
        match Prior(env, unique, key)
        case None =>
          assert (unique + [f]) + rest[1..] == unique + rest;
          NormalizeFromExact(env, unique + [f], rest[1..]);
        case Some(prior) =>
          assert prior in unique + rest;
          assert rest == [f] + rest[1..];
          if prior == f {
            NormalizeFromExact(env, unique, rest[1..]);
            if NormalizeFrom(env, unique, rest[1..]).None? {
              assert forall g :: g in unique + rest[1..] ==> g in unique + rest;
            }
          }
      }
    }
  }

  lemma DistinctNoConflict(env: Env, forecasts: seq<Forecast>, r: seq<Forecast>)
    requires DistinctKeys(env, r) && forall f :: f in r <==> f in forecasts
    ensures !Conflicting(env, forecasts)
  {
    forall f, g | f in r && g in r && f != g ensures KeyOf(env, f) != KeyOf(env, g) {
      var i :| 0 <= i < |r| && r[i] == f;
      var j :| 0 <= j < |r| && r[j] == g;
    }
  }

  /** Normalisation fails exactly on conflicts, and otherwise keeps one entry of each key. */
  lemma NormalizeExact(env: Env, forecasts: seq<Forecast>)
    ensures Normalize(env, forecasts).None? <==> Conflicting(env, forecasts)
    ensures Normalize(env, forecasts).Some? ==>
              && DistinctKeys(env, Normalize(env, forecasts).value)
              && forall f :: f in Normalize(env, forecasts).value <==> f in forecasts
  {
    NormalizeFromExact(env, [], forecasts);
    assert [] + forecasts == forecasts;
    if Normalize(env, forecasts).Some? {
      DistinctNoConflict(env, forecasts, Normalize(env, forecasts).value);
    }
  }

  ghost predicate Offers(env: Env, forecasts: seq<Forecast>, key: ForecastKey) {
    exists f :: f in forecasts && KeyOf(env, f) == Some(key)
  }

  lemma {:induction false} GroupsExact(env: Env, forecasts: seq<Forecast>, expected: set<(string, string)>)
    requires Groups(env, forecasts, expected).Some?
    ensures var groups := Groups(env, forecasts, expected).value;
            && (forall key :: Offers(env, forecasts, key) <==>
                  GroupOf(key) in groups && key.lead in groups[GroupOf(key)])
            && (forall f :: f in forecasts ==>
                  && KeyOf(env, f).Some?
                  && (KeyOf(env, f).value.cell, KeyOf(env, f).value.time) in expected)
    decreases |forecasts|
  {
    if forecasts != [] {
      var front, last := forecasts[..|forecasts| - 1], forecasts[|forecasts| - 1];
      assert forecasts == front + [last];
      GroupsExact(env, front, expected);
      var groups := Groups(env, forecasts, expected).value;
      forall key ensures Offers(env, forecasts, key) <==> GroupOf(key) in groups && key.lead in groups[GroupOf(key)] {
        assert Offers(env, forecasts, key) <==> Offers(env, front, key) || KeyOf(env, last) == Some(key) by {
          if Offers(env, front, key) {
            var f :| f in front && KeyOf(env, f) == Some(key);
            assert f in forecasts;
          }
          if KeyOf(env, last) == Some(key) {
            assert last in forecasts;
          }
        }
      }
    }
  }

  lemma {:induction false} UpsertAllExact(env: Env, db: Store, cycle: string, forecasts: seq<Forecast>)
    requires UpsertAll(env, db, cycle, forecasts).Some?
    ensures var out := UpsertAll(env, db, cycle, forecasts).value;
            && out == db.(forecasts := out.forecasts)
            && (forall k :: k in out.forecasts <==> k in db.forecasts || Offers(env, forecasts, k))
            && (forall k :: k in out.forecasts && !Offers(env, forecasts, k) ==> out.forecasts[k] == db.forecasts[k])
            && (forall k :: Offers(env, forecasts, k) ==> out.forecasts[k].cycle == cycle)
            && (forall f :: f in forecasts ==> ValidForecast(f))
    decreases |forecasts|
  {
    if forecasts != [] {
      var f, rest := forecasts[0], forecasts[1..];
      assert forecasts == [f] + rest;
      var next := UpsertForecast(env, db, cycle, f).value;
      UpsertAllExact(env, next, cycle, rest);
      forall k ensures Offers(env, forecasts, k) <==> KeyOf(env, f) == Some(k) || Offers(env, rest, k) {
        OffersCons(env, forecasts, k);
      }
    }
  }

  lemma OffersCons(env: Env, forecasts: seq<Forecast>, k: ForecastKey)
    requires forecasts != []
    ensures Offers(env, forecasts, k) <==> KeyOf(env, forecasts[0]) == Some(k) || Offers(env, forecasts[1..], k)
  {
    assert forecasts == [forecasts[0]] + forecasts[1..];
    if Offers(env, forecasts[1..], k) {
      var f :| f in forecasts[1..] && KeyOf(env, f) == Some(k);
      assert f in forecasts;
    }
    if KeyOf(env, forecasts[0]) == Some(k) {
      assert forecasts[0] in forecasts;
    }
  }

  /** The forecasts that survive normalisation offer the same keys. */
  lemma SameOffers(env: Env, a: seq<Forecast>, b: seq<Forecast>, k: ForecastKey)
    requires forall f :: f in a <==> f in b
    ensures Offers(env, a, k) <==> Offers(env, b, k)
  {
    if Offers(env, a, k) {
      var f :| f in a && KeyOf(env, f) == Some(k);
      assert f in b;
    }
    if Offers(env, b, k) {
      var f :| f in b && KeyOf(env, f) == Some(k);
      assert f in a;
    }
  }

  /** All four leads of a group are offered, or none of them. */
  ghost predicate WholeOffer(env: Env, forecasts: seq<Forecast>) {
    forall k :: Offers(env, forecasts, k) ==>
      k.lead in LEADS && forall lead :: lead in LEADS ==> Offers(env, forecasts, k.(lead := lead))
  }

  lemma {:induction false} CompleteIsWhole(env: Env, forecasts: seq<Forecast>, expected: set<(string, string)>)
    requires Groups(env, forecasts, expected).Some?
    ensures Complete(Groups(env, forecasts, expected).value) ==> WholeOffer(env, forecasts)
  {
    GroupsExact(env, forecasts, expected);
    var groups := Groups(env, forecasts, expected).value;
    if Complete(groups) {
      forall k | Offers(env, forecasts, k)
        ensures k.lead in LEADS && forall lead :: lead in LEADS ==> Offers(env, forecasts, k.(lead := lead))
      {
        assert groups[GroupOf(k)] == LEADS;
        forall lead | lead in LEADS ensures Offers(env, forecasts, k.(lead := lead)) {
          assert GroupOf(k.(lead := lead)) == GroupOf(k);
        }
      }
    }
  }

  /** Storing forecasts: complete groups only, over the rows already there. */
  lemma StoreForecastsExact(env: Env, db: Store, cycle: string, cells: seq<Cell>, forecasts: seq<Forecast>)
    requires StoreForecasts(env, db, cycle, cells, forecasts).Some?
    ensures var out := StoreForecasts(env, db, cycle, cells, forecasts).value;
            && WholeOffer(env, forecasts) && !Conflicting(env, forecasts)
            && out == db.(forecasts := out.forecasts)
            && (forall k :: k in out.forecasts <==> k in db.forecasts || Offers(env, forecasts, k))
            && (forall k :: k in out.forecasts && !Offers(env, forecasts, k) ==> out.forecasts[k] == db.forecasts[k])
            && (forall k :: Offers(env, forecasts, k) ==> out.forecasts[k].cycle == cycle)
            && (forall f :: f in forecasts ==> ValidForecast(f))
  {
    if forecasts == [] {
      assert forall k :: !Offers(env, forecasts, k);
    } else {
      var unique := Normalize(env, forecasts).value;
      NormalizeExact(env, forecasts);
      forall k ensures Offers(env, unique, k) <==> Offers(env, forecasts, k) {
        SameOffers(env, unique, forecasts, k);
      }
      CompleteIsWhole(env, unique, Expected(env, cells).value);
      UpsertAllExact(env, db, cycle, unique);
    }
  }

  // ---------- the store invariant ----------

  /** The three observation tables hold the same keys, with well-formed vectors and known cycles. */
  ghost predicate TablesInv(db: Store) {
    && db.observations.Keys == db.features.Keys == db.profiles.Keys
    && (forall k :: k in db.features ==> FiniteVector(db.features[k], FEATURE_COUNT))
    && (forall k :: k in db.profiles ==> FiniteVector(db.profiles[k], RAY_COUNT))
    && (forall k :: k in db.observations ==> db.observations[k] in db.cycles)
  }

  ghost predicate ForecastsInv(db: Store) {
    Whole(db.forecasts) && forall k :: k in db.forecasts ==> db.forecasts[k].cycle in db.cycles
  }

  /** Every observation has its four placeholders. */
  ghost predicate Placed(observations: set<ObservationKey>, forecasts: set<ForecastKey>) {
    forall k, lead :: k in observations && lead in LEADS ==>
        ForecastKey(k.cell, k.time, lead, PENDING_MODEL) in forecasts
  }

  ghost predicate StoreInv(db: Store) {
    TablesInv(db) && ForecastsInv(db) && Placed(db.observations.Keys, db.forecasts.Keys)
  }

  lemma PlacedGrows(observations: set<ObservationKey>, forecasts: set<ForecastKey>, key: ObservationKey,
      more: set<ForecastKey>)
    requires Placed(observations, forecasts) && forecasts <= more
    requires forall lead :: lead in LEADS ==> ForecastKey(key.cell, key.time, lead, PENDING_MODEL) in more
    ensures Placed(observations + {key}, more)
  {}

  /** An observation leaves every real forecast row alone. */
  lemma UpsertObservationKeepsModels(env: Env, db: Store, cell: string, record: Record, cycle: string)
    requires StoreInv(db) && UpsertObservation(env, db, cell, record, cycle).Some?
    ensures var out := UpsertObservation(env, db, cell, record, cycle).value;
            && out.cycles == db.cycles && out.sources == db.sources
            && (forall k :: k in db.forecasts && k.model != PENDING_MODEL ==>
                  k in out.forecasts && out.forecasts[k] == db.forecasts[k])
            && (forall k :: k in out.forecasts && k.model != PENDING_MODEL ==> k in db.forecasts)
  {
    PlaceholdersInv(db.forecasts, cell, env.time(record.analysisTime).value, cycle, record.ready, db.cycles.Keys);
  }

  lemma UpsertObservationInv(env: Env, db: Store, cell: string, record: Record, cycle: string)
    requires StoreInv(db) && UpsertObservation(env, db, cell, record, cycle).Some?
    ensures StoreInv(UpsertObservation(env, db, cell, record, cycle).value)
  {
    var time := env.time(record.analysisTime).value;
    var key := ObservationKey(cell, time, record.schema);
    PlaceholdersInv(db.forecasts, cell, time, cycle, record.ready, db.cycles.Keys);
    ObservationInv(db, key, record, cycle, PutPending(db.forecasts, cell, time, LEAD_LIST, cycle, record.ready));
  }

  lemma ObservationInv(db: Store, key: ObservationKey, record: Record, cycle: string, forecasts: map<ForecastKey, Row>)
    requires StoreInv(db) && cycle in db.cycles
    requires FiniteVector(record.features, FEATURE_COUNT) && FiniteVector(record.profile, RAY_COUNT)
    requires Whole(forecasts) && (forall k :: k in forecasts ==> forecasts[k].cycle in db.cycles)
    requires forall lead :: lead in LEADS ==> ForecastKey(key.cell, key.time, lead, PENDING_MODEL) in forecasts
    requires forall k :: k in db.forecasts ==> k in forecasts
    ensures StoreInv(db.(observations := db.observations[key := cycle], features := db.features[key := record.features],
                         profiles := db.profiles[key := record.profile], forecasts := forecasts))
  {
    var out := db.(observations := db.observations[key := cycle], features := db.features[key := record.features],
                   profiles := db.profiles[key := record.profile], forecasts := forecasts);
    TablesGrow(db, out, key, record, cycle);
    PlacedAfter(db, out, key);
  }

  lemma PlacedAfter(db: Store, out: Store, key: ObservationKey)
    requires Placed(db.observations.Keys, db.forecasts.Keys) && out.observations.Keys == db.observations.Keys + {key}
    requires forall k :: k in db.forecasts ==> k in out.forecasts
    requires forall lead :: lead in LEADS ==> ForecastKey(key.cell, key.time, lead, PENDING_MODEL) in out.forecasts
    ensures Placed(out.observations.Keys, out.forecasts.Keys)
  {
    PlacedGrows(db.observations.Keys, db.forecasts.Keys, key, out.forecasts.Keys);
  }

  lemma TablesGrow(db: Store, out: Store, key: ObservationKey, record: Record, cycle: string)
    requires TablesInv(db) && cycle in db.cycles && out.cycles == db.cycles
    requires FiniteVector(record.features, FEATURE_COUNT) && FiniteVector(record.profile, RAY_COUNT)
    requires out.observations == db.observations[key := cycle]
    requires out.features == db.features[key := record.features] && out.profiles == db.profiles[key := record.profile]
    ensures TablesInv(out)
  {}

  lemma {:induction false} PlaceholdersInv(
    forecasts: map<ForecastKey, Row>, cell: string, time: string, cycle: string, ready: bool, cycles: set<string>)
    requires Whole(forecasts) && cycle in cycles && forall k :: k in forecasts ==> forecasts[k].cycle in cycles
    ensures var out := PutPending(forecasts, cell, time, LEAD_LIST, cycle, ready);
            && Whole(out) && (forall k :: k in out ==> out[k].cycle in cycles)
            && (forall lead :: lead in LEADS ==> ForecastKey(cell, time, lead, PENDING_MODEL) in out)
            && (forall k :: k in forecasts ==> k in out && (k.model != PENDING_MODEL ==> out[k] == forecasts[k]))
            && (forall k :: k in out && k.model != PENDING_MODEL ==> k in forecasts)
  {
    PutPendingWhole(forecasts, cell, time, cycle, ready);
    PutPendingKeys(forecasts, cell, time, LEAD_LIST, cycle, ready);
    PutPendingCycles(forecasts, cell, time, LEAD_LIST, cycle, ready, cycles);
  }

  lemma {:induction false} PutPendingCycles(
    forecasts: map<ForecastKey, Row>, cell: string, time: string, leads: seq<int>, cycle: string, ready: bool,
        cycles: set<string>)
    requires cycle in cycles && forall k :: k in forecasts ==> forecasts[k].cycle in cycles
    ensures forall k :: k in PutPending(forecasts, cell, time, leads, cycle, ready) ==>
              PutPending(forecasts, cell, time, leads, cycle, ready)[k].cycle in cycles
    decreases |leads|
  {
    var out := PutPending(forecasts, cell, time, leads, cycle, ready);
    if leads == [] {
      assert out == forecasts;
    } else {
      var key := ForecastKey(cell, time, leads[0], PENDING_MODEL);
      var next := forecasts[key := PendingRow(GetRow(forecasts, key), cycle, ready)];
      PutPendingCycles(next, cell, time, leads[1..], cycle, ready, cycles);
      assert out == PutPending(next, cell, time, leads[1..], cycle, ready);
    }
  }

  lemma StoreCellInv(env: Env, db: Store, cycle: string, policy: Policy, cell: Cell)
    requires StoreInv(db) && StoreCell(env, db, cycle, policy, cell).Some?
    ensures var out := StoreCell(env, db, cycle, policy, cell).value;
            && StoreInv(out) && out.cycles == db.cycles && out.sources == db.sources
            && (forall k :: k in out.forecasts && k.model != PENDING_MODEL ==> k in db.forecasts)
  {
    if Storable(cell) {
      var record := cell.record.value;
      var cleared := db;
      if policy.Invalidate? {
        var time := env.time(record.analysisTime).value;
        cleared := db.(forecasts := DropModels(db.forecasts, cell.id.value, time));
        DropModelsWhole(db.forecasts, cell.id.value, time);
      }
      assert StoreInv(cleared);
      UpsertObservationInv(env, cleared, cell.id.value, record, cycle);
      UpsertObservationKeepsModels(env, cleared, cell.id.value, record, cycle);
    }
  }

  lemma {:induction false} StoreCellsInv(env: Env, db: Store, cycle: string, policy: Policy, cells: seq<Cell>)
    requires StoreInv(db) && StoreCells(env, db, cycle, policy, cells).Some?
    ensures var out := StoreCells(env, db, cycle, policy, cells).value;
            && StoreInv(out) && out.cycles == db.cycles && out.sources == db.sources
            && (forall k :: k in out.forecasts && k.model != PENDING_MODEL ==> k in db.forecasts)
    decreases |cells|
  {
    if cells != [] {
      StoreCellInv(env, db, cycle, policy, cells[0]);
      StoreCellsInv(env, StoreCell(env, db, cycle, policy, cells[0]).value, cycle, policy, cells[1..]);
    }
  }

  lemma StoreForecastsInv(env: Env, db: Store, cycle: string, cells: seq<Cell>, forecasts: seq<Forecast>)
    requires StoreInv(db) && cycle in db.cycles && StoreForecasts(env, db, cycle, cells, forecasts).Some?
    ensures StoreInv(StoreForecasts(env, db, cycle, cells, forecasts).value)
  {
    StoreForecastsExact(env, db, cycle, cells, forecasts);
    var out := StoreForecasts(env, db, cycle, cells, forecasts).value;
    forall k | k in out.forecasts
      ensures k.lead in LEADS && forall lead :: lead in LEADS ==> k.(lead := lead) in out.forecasts
    {
      if k !in db.forecasts {
        assert Offers(env, forecasts, k);
      }
    }
    forall k | k in out.forecasts ensures out.forecasts[k].cycle in out.cycles {
      assert Offers(env, forecasts, k) || out.forecasts[k] == db.forecasts[k];
    }
  }

  lemma CommitCycleInv(env: Env, db: Store, call: CycleCall)
    requires StoreInv(db) && CommitCycle(env, db, call).Some?
    ensures StoreInv(CommitCycle(env, db, call).value)
  {
    var begun := Begun(env, db, call);
    assert StoreInv(begun);
    StoreCellsInv(env, begun, call.cycle, call.policy, call.cells);
    var stored := StoreCells(env, begun, call.cycle, call.policy, call.cells).value;
    StoreForecastsInv(env, stored, call.cycle, call.cells, call.forecasts);
  }

  lemma {:induction false} StoreEntriesInv(env: Env, db: Store, cycle: string, entries: seq<Cell>)
    requires StoreInv(db) && StoreEntries(env, db, cycle, entries).Some?
    ensures var out := StoreEntries(env, db, cycle, entries).value;
            StoreInv(out) && out.cycles == db.cycles && out.sources == db.sources
    decreases |entries|
  {
    if entries != [] {
      UpsertObservationInv(env, db, entries[0].id.value, entries[0].record.value, cycle);
      UpsertObservationKeepsModels(env, db, entries[0].id.value, entries[0].record.value, cycle);
      var next := UpsertObservation(env, db, entries[0].id.value, entries[0].record.value, cycle).value;
      StoreEntriesInv(env, next, cycle, entries[1..]);
    }
  }

  lemma ImportLegacyInv(env: Env, db: Store, file: LegacyFile)
    requires StoreInv(db) && ImportLegacy(env, db, file).Some?
    ensures StoreInv(ImportLegacy(env, db, file).value)
  {
    if file.path !in db.sources {
      var cycle := "legacy:" + file.digest;
      var begun := ImportBegun(env, db, file);
      assert StoreInv(begun);
      StoreEntriesInv(env, begun, cycle, file.entries);
    }
  }

  /**
   After any sequence of commits and imports, successful or rolled back: forecast groups
   are whole, the observation tables agree, and no row refers to an unknown cycle.
   */
  lemma {:induction false} RunsKeepInv(env: Env, db: Store, requests: seq<Request>)
    requires StoreInv(db)
    ensures StoreInv(ServeAll(env, db, requests))
    decreases |requests|
  {
    if requests != [] {
      match requests[0] {
        case Commit(call) =>
          if CommitCycle(env, db, call).Some? {
            CommitCycleInv(env, db, call);
          }
        case Import(file) =>
          if ImportLegacy(env, db, file).Some? {
            ImportLegacyInv(env, db, file);
          }
      }
      RunsKeepInv(env, Serve(env, db, requests[0]), requests[1..]);
    }
  }

  /** A conflicting duplicate or an incomplete group leaves every table unchanged. */
  lemma BadForecastsRollBack(env: Env, db: Store, call: CycleCall)
    requires Conflicting(env, call.forecasts) || !WholeOffer(env, call.forecasts)
    ensures Serve(env, db, Commit(call)) == db
  {
    if CommitCycle(env, db, call).Some? {
      var begun := Begun(env, db, call);
      var stored := StoreCells(env, begun, call.cycle, call.policy, call.cells).value;
      StoreForecastsExact(env, stored, call.cycle, call.cells, call.forecasts);
    }
  }

  // ---------- no stale predictions ----------

  /** The (cell, time) pairs whose observation the call rewrites. */
  ghost predicate Rewrites(env: Env, cells: seq<Cell>, cell: string, time: string) {
    exists c :: c in cells && Storable(c) && c.id.value == cell && c.record.Some?
      && env.time(c.record.value.analysisTime) == Some(time)
  }

  lemma {:induction false} StoreCellsClears(env: Env, db: Store, cycle: string, cells: seq<Cell>, k: ForecastKey)
    requires StoreInv(db) && StoreCells(env, db, cycle, Invalidate, cells).Some?
    requires k.model != PENDING_MODEL && Rewrites(env, cells, k.cell, k.time)
    ensures k !in StoreCells(env, db, cycle, Invalidate, cells).value.forecasts
    decreases |cells|
  {
    var next := StoreCell(env, db, cycle, Invalidate, cells[0]).value;
    StoreCellInv(env, db, cycle, Invalidate, cells[0]);
    StoreCellsInv(env, next, cycle, Invalidate, cells[1..]);
    assert cells == [cells[0]] + cells[1..];
    if Rewrites(env, cells[1..], k.cell, k.time) {
      StoreCellsClears(env, next, cycle, cells[1..], k);
    } else {
      var c :| c in cells && Storable(c) && c.id.value == k.cell && c.record.Some?
          && env.time(c.record.value.analysisTime) == Some(k.time);
      assert c == cells[0];
      var cleared := db.(forecasts := DropModels(db.forecasts, k.cell, k.time));
      DropModelsWhole(db.forecasts, k.cell, k.time);
      assert StoreInv(cleared);
      UpsertObservationInv(env, cleared, k.cell, c.record.value, cycle);
      UpsertObservationKeepsModels(env, cleared, k.cell, c.record.value, cycle);
      assert k !in next.forecasts;
    }
  }

  /**
   Under the invalidating policy a committed cell keeps no prediction of an earlier
   commit: each real forecast row at a rewritten (cell, time) belongs to this cycle.
   */
  lemma NoStaleForecasts(env: Env, db: Store, call: CycleCall, k: ForecastKey)
    requires StoreInv(db) && CommitCycle(env, db, call).Some? && call.policy.Invalidate?
    requires k.model != PENDING_MODEL && Rewrites(env, call.cells, k.cell, k.time)
    requires k in CommitCycle(env, db, call).value.forecasts
    ensures Offers(env, call.forecasts, k) && CommitCycle(env, db, call).value.forecasts[k].cycle == call.cycle
  {
    var begun := Begun(env, db, call);
    assert StoreInv(begun);
    StoreCellsClears(env, begun, call.cycle, call.cells, k);
    var stored := StoreCells(env, begun, call.cycle, call.policy, call.cells).value;
    StoreForecastsExact(env, stored, call.cycle, call.cells, call.forecasts);
  }

  // ---------- legacy imports ----------

  /** Reimporting the same file is a no-op however much was committed in between; changed bytes fail. */
  lemma {:induction false} ReimportIsIdle(
    env: Env, db: Store, file: LegacyFile, requests: seq<Request>, again: LegacyFile)
    requires ImportLegacy(env, db, file).Some? && again.path == file.path
    ensures var later := ServeAll(env, ImportLegacy(env, db, file).value, requests);
            && ImportLegacy(env, later, file) == Some(later)
            && (again.digest != file.digest || |again.entries| != |file.entries| ==>
                  ImportLegacy(env, later, again).None?)
  {
    var after := ImportLegacy(env, db, file).value;
    SourcesKept(env, after, requests, file.path);
  }

  lemma {:induction false} SourcesKept(env: Env, db: Store, requests: seq<Request>, path: string)
    requires path in db.sources
    ensures var later := ServeAll(env, db, requests); path in later.sources && later.sources[path] == db.sources[path]
    decreases |requests|
  {
    if requests != [] {
      ServeKeepsSource(env, db, requests[0], path);
      SourcesKept(env, Serve(env, db, requests[0]), requests[1..], path);
    }
  }

  lemma ServeKeepsSource(env: Env, db: Store, request: Request, path: string)
    requires path in db.sources
    ensures var next := Serve(env, db, request); path in next.sources && next.sources[path] == db.sources[path]
  {
    match request
    case Commit(call) =>
      if CommitCycle(env, db, call).Some? {
        var begun := Begun(env, db, call);
        StoreCellsFrame(env, begun, call.cycle, call.policy, call.cells);
        var stored := StoreCells(env, begun, call.cycle, call.policy, call.cells).value;
        StoreForecastsExact(env, stored, call.cycle, call.cells, call.forecasts);
      }
    case Import(file) =>
      if file.path !in db.sources && ImportLegacy(env, db, file).Some? {
        var cycle := "legacy:" + file.digest;
        StoreEntriesFrame(env, ImportBegun(env, db, file), cycle, file.entries);
      }
  }

  lemma {:induction false} StoreCellsFrame(env: Env, db: Store, cycle: string, policy: Policy, cells: seq<Cell>)
    requires StoreCells(env, db, cycle, policy, cells).Some?
    ensures var out := StoreCells(env, db, cycle, policy, cells).value;
            out.sources == db.sources && out.cycles == db.cycles
    decreases |cells|
  {
    if cells != [] {
      StoreCellsFrame(env, StoreCell(env, db, cycle, policy, cells[0]).value, cycle, policy, cells[1..]);
    }
  }

  lemma {:induction false} StoreEntriesFrame(env: Env, db: Store, cycle: string, entries: seq<Cell>)
    requires StoreEntries(env, db, cycle, entries).Some?
    ensures var out := StoreEntries(env, db, cycle, entries).value;
            out.sources == db.sources && out.cycles == db.cycles
    decreases |entries|
  {
    if entries != [] {
      var next := UpsertObservation(env, db, entries[0].id.value, entries[0].record.value, cycle).value;
      StoreEntriesFrame(env, next, cycle, entries[1..]);
    }
  }

  // ---------- cycles ----------

  /** A cycle is never lost, and its state changes only by being committed again. */
  ghost predicate CycleStays(before: Store, after: Store, cycle: string) {
    cycle in before.cycles ==>
      cycle in after.cycles && after.cycles[cycle].state in {before.cycles[cycle].state, "inputs-committed"}
  }

  /** Over any commits and imports, successful or rolled back. */
  lemma {:induction false} CyclesStay(env: Env, db: Store, requests: seq<Request>, cycle: string)
    ensures CycleStays(db, ServeAll(env, db, requests), cycle)
    decreases |requests|
  {
    if requests != [] {
      ServeKeepsCycle(env, db, requests[0], cycle);
      CyclesStay(env, Serve(env, db, requests[0]), requests[1..], cycle);
    }
  }

  lemma ServeKeepsCycle(env: Env, db: Store, request: Request, cycle: string)
    ensures CycleStays(db, Serve(env, db, request), cycle)
  {
    match request
    case Commit(call) =>
      if CommitCycle(env, db, call).Some? {
        var begun := Begun(env, db, call);
        StoreCellsFrame(env, begun, call.cycle, call.policy, call.cells);
        var stored := StoreCells(env, begun, call.cycle, call.policy, call.cells).value;
        StoreForecastsExact(env, stored, call.cycle, call.cells, call.forecasts);
      }
    case Import(file) =>
      if file.path !in db.sources && ImportLegacy(env, db, file).Some? {
        StoreEntriesFrame(env, ImportBegun(env, db, file), "legacy:" + file.digest, file.entries);
      }
  }
}
