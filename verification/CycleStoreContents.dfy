/** What every table holds after a commit or an import, row by row and column by column
    (src/EdgeWARN/stormprob/database.py). */
module CycleStoreContents {
  import opened Numbers
  import opened Wrappers
  import opened CycleStore
  import opened CycleStoreTheorems

  // ---------- rows ----------

  /** The observation row of a key, with its features and its profile, is the same in both stores. */
  ghost predicate SameObservation(a: Store, b: Store, key: ObservationKey) {
    && (key in a.observations <==> key in b.observations)
    && (key in a.observations ==> a.observations[key] == b.observations[key])
    && (key in a.features <==> key in b.features) && (key in a.features ==> a.features[key] == b.features[key])
    && (key in a.profiles <==> key in b.profiles) && (key in a.profiles ==> a.profiles[key] == b.profiles[key])
  }

  ghost predicate SameForecast(a: Store, b: Store, k: ForecastKey) {
    (k in a.forecasts <==> k in b.forecasts) && (k in a.forecasts ==> a.forecasts[k] == b.forecasts[k])
  }

  /** The entry rewrites the observation row `key`. */
  ghost predicate Names(env: Env, c: Cell, key: ObservationKey) {
    Storable(c) && c.record.Some? && env.time(c.record.value.analysisTime).Some?
    && key == ObservationKey(c.id.value, env.time(c.record.value.analysisTime).value, c.record.value.schema)
  }

  /** The entry rewrites placeholder `k`: one of its own cell and time, under whatever schema. */
  ghost predicate Places(env: Env, c: Cell, k: ForecastKey) {
    && Storable(c) && c.record.Some? && env.time(c.record.value.analysisTime) == Some(k.time)
    && k.cell == c.id.value && k.model == PENDING_MODEL && k.lead in LEAD_LIST
  }

  /** The placeholder says why there is no forecast; its other columns are those of the row before, if there was one. */
  predicate IsPlaceholder(row: Row, before: Option<Row>, cycle: string, ready: bool) {
    && row.cycle == cycle
    && (ready ==> row.status == "not-computed" && row.reason == Some("model-not-deployed"))
    && (!ready ==> row.status == "skipped" && row.reason == Some("input-not-ready"))
    && row.east == (if before.Some? then before.value.east else None)
    && row.north == (if before.Some? then before.value.north else None)
    && row.threshold == (if before.Some? then before.value.threshold else None)
    && row.polygon == (if before.Some? then before.value.polygon else None)
    && row.details == if before.Some? then before.value.details else ""
  }

  /** The row holds what the forecast says. */
  predicate IsRowOf(row: Row, f: Forecast, cycle: string) {
    && row.cycle == cycle && row.status == f.status && row.reason == f.reason
    && row.east == f.east && row.north == f.north && row.threshold == f.threshold
    && row.polygon == f.polygon && row.details == f.details
  }

  lemma {:induction false} PutPendingRow(
    forecasts: map<ForecastKey, Row>, cell: string, time: string, leads: seq<int>, cycle: string, ready: bool,
    k: ForecastKey)
    ensures var out := PutPending(forecasts, cell, time, leads, cycle, ready);
            if k.model == PENDING_MODEL && k.cell == cell && k.time == time && k.lead in leads
            then k in out && IsPlaceholder(out[k], GetRow(forecasts, k), cycle, ready)
            else (k in out <==> k in forecasts) && (k in out ==> out[k] == forecasts[k])
    decreases |leads|
  {
    if leads != [] {
      var key := ForecastKey(cell, time, leads[0], PENDING_MODEL);
      var next := forecasts[key := PendingRow(GetRow(forecasts, key), cycle, ready)];
      assert leads == [leads[0]] + leads[1..];
      PutPendingRow(next, cell, time, leads[1..], cycle, ready, k);
    }
  }

  // ---------- the cells of one request ----------

  /** The last record of the list that names the observation row. */
  ghost function LastNaming(env: Env, cells: seq<Cell>, key: ObservationKey): Option<Record>
    decreases |cells|
  {
    if cells == [] then None
    else
      var rest := LastNaming(env, cells[1..], key);
      if rest.Some? then rest else if Names(env, cells[0], key) then cells[0].record else None
  }

  /** The last record of the list that rewrites the placeholder. */
  ghost function LastPlacing(env: Env, cells: seq<Cell>, k: ForecastKey): Option<Record>
    decreases |cells|
  {
    if cells == [] then None
    else
      var rest := LastPlacing(env, cells[1..], k);
      if rest.Some? then rest else if Places(env, cells[0], k) then cells[0].record else None
  }

  /** By position: the record of the last cell that names the row. */
  lemma {:induction false} LastNamingExact(env: Env, cells: seq<Cell>, key: ObservationKey)
    ensures LastNaming(env, cells, key).None? <==> forall i :: 0 <= i < |cells| ==> !Names(env, cells[i], key)
    ensures forall i :: IsLast(env, cells, key, i) ==> LastNaming(env, cells, key) == cells[i].record
    decreases |cells|
  {
    if cells != [] {
      var rest := cells[1..];
      LastNamingExact(env, rest, key);
      forall i | IsLast(env, cells, key, i) ensures LastNaming(env, cells, key) == cells[i].record {
        forall j | 1 <= j < |cells| ensures cells[j] == rest[j - 1] {
        }
        assert i > 0 ==> IsLast(env, rest, key, i - 1);
      }
    }
  }

  /** Cell `i` names the row and no later cell does. */
  ghost predicate IsLast(env: Env, cells: seq<Cell>, key: ObservationKey, i: int) {
    0 <= i < |cells| && Names(env, cells[i], key) && forall j :: i < j < |cells| ==> !Names(env, cells[j], key)
  }

  /** An entry that is no dictionary, or lacks an id or a time, is passed over; any other must have a record. */
  lemma StoredOrSkipped(env: Env, db: Store, cycle: string, policy: Policy, cell: Cell)
    ensures cell.NotADict? || cell.id == None || cell.timestamp in {None, Some("")} ==>
              StoreCell(env, db, cycle, policy, cell) == Some(db)
    ensures cell.Cell? && cell.id.Some? && cell.timestamp !in {None, Some("")} && cell.record.None? ==>
              StoreCell(env, db, cycle, policy, cell) == None
  {
  }

  lemma StoreOneCell(
    env: Env, db: Store, cycle: string, policy: Policy, cell: Cell, key: ObservationKey, k: ForecastKey)
    requires StoreCell(env, db, cycle, policy, cell).Some?
    ensures var out := StoreCell(env, db, cycle, policy, cell).value;
            && out.cycles == db.cycles && out.sources == db.sources
            && (if Names(env, cell, key) then Observed(out, key, cell.record.value, cycle)
                else SameObservation(db, out, key))
            && (if Places(env, cell, k)
                then k in out.forecasts
                     && IsPlaceholder(out.forecasts[k], GetRow(db.forecasts, k), cycle, cell.record.value.ready)
                else if policy.Invalidate? && k.model != PENDING_MODEL && Rewrites(env, [cell], k.cell, k.time)
                then k !in out.forecasts
                else SameForecast(db, out, k))
  {
    if Storable(cell) {
      var record := cell.record.value;
      var time := env.time(record.analysisTime).value;
      var cleared := if policy.Invalidate? then DropModels(db.forecasts, cell.id.value, time) else db.forecasts;
      PutPendingRow(cleared, cell.id.value, time, LEAD_LIST, cycle, record.ready, k);
      assert [cell][0] in [cell];
    }
  }

  /** The observation row holds the record. */
  ghost predicate Observed(db: Store, key: ObservationKey, record: Record, cycle: string) {
    && key in db.observations && db.observations[key] == cycle
    && key in db.features && db.features[key] == record.features
    && key in db.profiles && db.profiles[key] == record.profile
  }

  /** What the cells of a request leave in one observation row and in one forecast row. */
  ghost predicate CellsStored(
    env: Env, db: Store, out: Store, cycle: string, policy: Policy, cells: seq<Cell>, key: ObservationKey,
    k: ForecastKey)
  {
    && (var named := LastNaming(env, cells, key);
        if named.Some? then Observed(out, key, named.value, cycle) else SameObservation(db, out, key))
    && ForecastLeft(env, db, out, cycle, policy, cells, k)
  }

  /** A placeholder, a prediction that is gone, or a row that nothing touched. */
  ghost predicate ForecastLeft(
    env: Env, db: Store, out: Store, cycle: string, policy: Policy, cells: seq<Cell>, k: ForecastKey)
  {
    var placed := LastPlacing(env, cells, k);
    if placed.Some? then
      k in out.forecasts && IsPlaceholder(out.forecasts[k], GetRow(db.forecasts, k), cycle, placed.value.ready)
    else if policy.Invalidate? && k.model != PENDING_MODEL && Rewrites(env, cells, k.cell, k.time) then
      k !in out.forecasts
    else SameForecast(db, out, k)
  }

  lemma RewritesCons(env: Env, cells: seq<Cell>, cell: string, time: string)
    requires cells != []
    ensures Rewrites(env, cells, cell, time) <==>
              Rewrites(env, [cells[0]], cell, time) || Rewrites(env, cells[1..], cell, time)
  {
    assert cells == [cells[0]] + cells[1..];
    assert cells[0] in [cells[0]];
  }

  lemma {:induction false} CellsExact(
    env: Env, db: Store, cycle: string, policy: Policy, cells: seq<Cell>, key: ObservationKey, k: ForecastKey)
    requires StoreCells(env, db, cycle, policy, cells).Some?
    ensures var out := StoreCells(env, db, cycle, policy, cells).value;
            && out.cycles == db.cycles && out.sources == db.sources
            && CellsStored(env, db, out, cycle, policy, cells, key, k)
    decreases |cells|
  {
    if cells != [] {
      var next := StoreCell(env, db, cycle, policy, cells[0]).value;
      StoreOneCell(env, db, cycle, policy, cells[0], key, k);
      CellsExact(env, next, cycle, policy, cells[1..], key, k);
      StoredFirst(env, db, next, StoreCells(env, db, cycle, policy, cells).value, cycle, policy, cells, key, k);
    }
  }

  /** The first cell and then the others. */
  lemma StoredFirst(
    env: Env, db: Store, next: Store, out: Store, cycle: string, policy: Policy, cells: seq<Cell>,
    key: ObservationKey, k: ForecastKey)
    requires cells != [] && StoreCell(env, db, cycle, policy, cells[0]) == Some(next)
    requires CellsStored(env, next, out, cycle, policy, cells[1..], key, k)
    ensures CellsStored(env, db, out, cycle, policy, cells, key, k)
  {
    StoreOneCell(env, db, cycle, policy, cells[0], key, k);
    LeftFirst(env, db, next, out, cycle, policy, cells, k);
  }

  lemma LeftFirst(
    env: Env, db: Store, next: Store, out: Store, cycle: string, policy: Policy, cells: seq<Cell>, k: ForecastKey)
    requires cells != [] && StoreCell(env, db, cycle, policy, cells[0]) == Some(next)
    requires ForecastLeft(env, next, out, cycle, policy, cells[1..], k)
    ensures ForecastLeft(env, db, out, cycle, policy, cells, k)
  {
    StoreOneCell(env, db, cycle, policy, cells[0], ObservationKey("", "", ""), k);
    RewritesCons(env, cells, k.cell, k.time);
    PlacesPending(env, cells, k);
    PlacesPending(env, cells[1..], k);
  }

  lemma {:induction false} PlacesPending(env: Env, cells: seq<Cell>, k: ForecastKey)
    ensures LastPlacing(env, cells, k).Some? ==> k.model == PENDING_MODEL
    decreases |cells|
  {
    if cells != [] {
      PlacesPending(env, cells[1..], k);
    }
  }

  // ---------- the forecasts of one request ----------

  lemma {:induction false} UpsertAllContents(env: Env, db: Store, cycle: string, forecasts: seq<Forecast>, i: nat)
    requires UpsertAll(env, db, cycle, forecasts).Some? && DistinctKeys(env, forecasts) && i < |forecasts|
    ensures var out := UpsertAll(env, db, cycle, forecasts).value;
            && KeyOf(env, forecasts[i]).Some? && KeyOf(env, forecasts[i]).value in out.forecasts
            && IsRowOf(out.forecasts[KeyOf(env, forecasts[i]).value], forecasts[i], cycle)
    decreases |forecasts|
  {
    var rest := forecasts[1..];
    var next := UpsertForecast(env, db, cycle, forecasts[0]).value;
    forall j | 0 <= j < |rest| ensures rest[j] == forecasts[j + 1] {
    }
    if i > 0 {
      UpsertAllContents(env, next, cycle, rest, i - 1);
    } else {
      var key := KeyOf(env, forecasts[0]).value;
      UpsertAllExact(env, next, cycle, rest);
      assert !Offers(env, rest, key) by {
        forall f | f in rest ensures KeyOf(env, f) != Some(key) {
          var j :| 0 <= j < |rest| && rest[j] == f;
        }
      }
    }
  }

  /** Every forecast of an accepted list is stored in the row of its cell, time, lead and model, column by column. */
  lemma ForecastStored(env: Env, db: Store, cycle: string, cells: seq<Cell>, forecasts: seq<Forecast>, f: Forecast)
    requires StoreForecasts(env, db, cycle, cells, forecasts).Some? && f in forecasts
    ensures var out := StoreForecasts(env, db, cycle, cells, forecasts).value;
            && env.time(f.analysisTime).Some?
            && var key := ForecastKey(f.cell, env.time(f.analysisTime).value, f.lead, f.model);
               key in out.forecasts && IsRowOf(out.forecasts[key], f, cycle)
  {
    var unique := Normalize(env, forecasts).value;
    NormalizeExact(env, forecasts);
    assert f in unique;
    var i :| 0 <= i < |unique| && unique[i] == f;
    UpsertAllContents(env, db, cycle, unique, i);
  }

  // ---------- a whole commit ----------

  /**
   What an accepted commit leaves in the whole database.  Its cycle is recorded; each observation row holds the last
   record that names it, each placeholder the state of the last record at its cell and time; each forecast of the
   request is stored column by column; the other predictions at rewritten places are gone under the invalidating
   policy; and every other row of every table is as it was.
   */
  lemma {:induction false} CommitExact(env: Env, db: Store, call: CycleCall, key: ObservationKey, k: ForecastKey)
    requires CommitCycle(env, db, call).Some?
    ensures var out := CommitCycle(env, db, call).value;
            && env.time(call.analysisTime).Some?
            && out.cycles == db.cycles[call.cycle :=
                 Cycle(env.time(call.analysisTime).value, "inputs-committed", call.projection)]
            && out.sources == db.sources
            && (Offers(env, call.forecasts, k) ==>
                  forall f :: f in call.forecasts && KeyOf(env, f) == Some(k) ==>
                    k in out.forecasts && IsRowOf(out.forecasts[k], f, call.cycle))
            && (!Offers(env, call.forecasts, k) ==>
                  CellsStored(env, db, out, call.cycle, call.policy, call.cells, key, k))
            && (var named := LastNaming(env, call.cells, key);
                if named.Some? then Observed(out, key, named.value, call.cycle) else SameObservation(db, out, key))
  {
    var begun := Begun(env, db, call);
    var stored := StoreCells(env, begun, call.cycle, call.policy, call.cells).value;
    CellsExact(env, begun, call.cycle, call.policy, call.cells, key, k);
    StoreForecastsExact(env, stored, call.cycle, call.cells, call.forecasts);
    forall f | f in call.forecasts && KeyOf(env, f) == Some(k)
      ensures var out := CommitCycle(env, db, call).value;
              k in out.forecasts && IsRowOf(out.forecasts[k], f, call.cycle)
    {
      ForecastStored(env, stored, call.cycle, call.cells, call.forecasts, f);
    }
  }

  // ---------- when a commit is accepted ----------

  /** What the store asks of a record: a readable time, 135 features and 64 profile values, all finite, and a finite
      area. */
  ghost predicate RecordAccepted(env: Env, r: Record) {
    && env.time(r.analysisTime).Some? && r.area.Finite? && (r.logArea == None || r.logArea.value.Finite?)
    && |r.features| == 135 && |r.profile| == 64
    && (forall v :: v in r.features ==> v.Finite?) && forall v :: v in r.profile ==> v.Finite?
  }

  /** What it asks of a forecast: one of the four leads, a model of its own, a known status, numbers that are finite,
      and a place and an outline where it claims one. */
  predicate ForecastAccepted(f: Forecast) {
    && f.lead in {15, 30, 45, 60} && f.model !in {"", "stormprob-pending/v1"}
    && f.status in {"ok", "no-polygon", "skipped", "error"}
    && f.east !in NOT_FINITE && f.north !in NOT_FINITE && f.threshold !in NOT_FINITE
    && (f.status == "ok" ==> None !in [f.east, f.north] && f.polygon != None)
  }

  const NOT_FINITE: set<Option<Number>> := {Some(NotANumber), Some(PositiveInfinity), Some(NegativeInfinity)}

  lemma RecordExact(env: Env, r: Record)
    ensures ValidRecord(env, r) <==> RecordAccepted(env, r)
  {
    if ValidRecord(env, r) {
      forall v | v in r.features ensures v.Finite? {
        var i :| 0 <= i < |r.features| && r.features[i] == v;
      }
      forall v | v in r.profile ensures v.Finite? {
        var i :| 0 <= i < |r.profile| && r.profile[i] == v;
      }
    }
    if RecordAccepted(env, r) {
      forall i | 0 <= i < |r.features| ensures r.features[i].Finite? {
        assert r.features[i] in r.features;
      }
      forall i | 0 <= i < |r.profile| ensures r.profile[i].Finite? {
        assert r.profile[i] in r.profile;
      }
    }
  }

  lemma ForecastExact(f: Forecast)
    ensures ValidForecast(f) <==> ForecastAccepted(f)
  {
  }

  ghost predicate CellsAccepted(env: Env, cells: seq<Cell>) {
    forall c :: c in cells && Storable(c) ==> c.record.Some? && RecordAccepted(env, c.record.value)
  }

  lemma {:induction false} StoreCellsAccepts(env: Env, db: Store, cycle: string, policy: Policy, cells: seq<Cell>)
    requires cycle in db.cycles
    ensures StoreCells(env, db, cycle, policy, cells).Some? <==> CellsAccepted(env, cells)
    decreases |cells|
  {
    if cells != [] {
      var c, rest := cells[0], cells[1..];
      assert cells == [c] + rest;
      if Storable(c) && c.record.Some? {
        RecordExact(env, c.record.value);
      }
      var next := StoreCell(env, db, cycle, policy, c);
      assert next.Some? <==> (Storable(c) ==> c.record.Some? && RecordAccepted(env, c.record.value));
      if next.Some? {
        StoreCellsAccepts(env, next.value, cycle, policy, rest);
      }
    }
  }

  /** Some stored cell of the request has this id and time. */
  ghost predicate HasCell(env: Env, cells: seq<Cell>, cell: string, time: string) {
    exists c :: c in cells && Storable(c) && c.id.value == cell && env.time(c.timestamp.value) == Some(time)
  }

  ghost predicate TimesReadable(env: Env, cells: seq<Cell>) {
    forall c :: c in cells && Storable(c) ==> env.time(c.timestamp.value).Some?
  }

  lemma {:induction false} ExpectedExact(env: Env, cells: seq<Cell>)
    ensures Expected(env, cells).Some? <==> TimesReadable(env, cells)
    ensures Expected(env, cells).Some? ==>
              forall cell, time :: (cell, time) in Expected(env, cells).value <==> HasCell(env, cells, cell, time)
    decreases |cells|
  {
    if cells != [] {
      assert cells == [cells[0]] + cells[1..];
      ExpectedExact(env, cells[1..]);
    }
  }

  ghost predicate AllExpected(env: Env, forecasts: seq<Forecast>, expected: set<(string, string)>) {
    forall f :: f in forecasts ==>
      KeyOf(env, f).Some? && (KeyOf(env, f).value.cell, KeyOf(env, f).value.time) in expected
  }

  lemma {:induction false} GroupsAccepts(env: Env, forecasts: seq<Forecast>, expected: set<(string, string)>)
    ensures Groups(env, forecasts, expected).Some? <==> AllExpected(env, forecasts, expected)
    ensures Groups(env, forecasts, expected).Some? ==>
              forall g :: g in Groups(env, forecasts, expected).value ==>
                exists lead :: lead in Groups(env, forecasts, expected).value[g]
    decreases |forecasts|
  {
    if forecasts != [] {
      var front, last := forecasts[..|forecasts| - 1], forecasts[|forecasts| - 1];
      assert forecasts == front + [last];
      GroupsAccepts(env, front, expected);
      if Groups(env, forecasts, expected).Some? {
        var groups := Groups(env, forecasts, expected).value;
        forall g | g in groups ensures exists lead :: lead in groups[g] {
          if g == GroupOf(KeyOf(env, last).value) {
            assert last.lead in groups[g];
          } else {
            assert groups[g] == Groups(env, front, expected).value[g];
          }
        }
      }
    }
  }

  lemma {:induction false} CompleteExact(env: Env, forecasts: seq<Forecast>, expected: set<(string, string)>)
    requires Groups(env, forecasts, expected).Some?
    ensures Complete(Groups(env, forecasts, expected).value) <==> WholeOffer(env, forecasts)
  {
    CompleteIsWhole(env, forecasts, expected);
    if WholeOffer(env, forecasts) {
      forall g | g in Groups(env, forecasts, expected).value
        ensures Groups(env, forecasts, expected).value[g] == LEADS
      {
        WholeGroup(env, forecasts, expected, g);
      }
    }
  }

  lemma {:induction false} WholeGroup(env: Env, forecasts: seq<Forecast>, expected: set<(string, string)>, g: Group)
    requires Groups(env, forecasts, expected).Some? && g in Groups(env, forecasts, expected).value
    requires WholeOffer(env, forecasts)
    ensures Groups(env, forecasts, expected).value[g] == LEADS
  {
    GroupsExact(env, forecasts, expected);
    GroupsAccepts(env, forecasts, expected);
    var leads := Groups(env, forecasts, expected).value[g];
    var lead :| lead in leads;
    var k := ForecastKey(g.cell, g.time, lead, g.model);
    assert GroupOf(k) == g && Offers(env, forecasts, k);
    forall other ensures other in leads <==> other in LEADS {
      OfferedLead(env, forecasts, k, other);
      assert GroupOf(k.(lead := other)) == g;
      assert Offers(env, forecasts, k.(lead := other)) <==> other in leads;
    }
  }

  lemma OfferedLead(env: Env, forecasts: seq<Forecast>, k: ForecastKey, lead: int)
    requires WholeOffer(env, forecasts) && Offers(env, forecasts, k)
    ensures Offers(env, forecasts, k.(lead := lead)) <==> lead in LEADS
  {
  }

  lemma {:induction false} UpsertAllAccepts(env: Env, db: Store, cycle: string, forecasts: seq<Forecast>)
    requires cycle in db.cycles
    ensures UpsertAll(env, db, cycle, forecasts).Some? <==>
              forall f :: f in forecasts ==> ForecastAccepted(f) && env.time(f.analysisTime).Some?
    decreases |forecasts|
  {
    if forecasts != [] {
      assert forecasts == [forecasts[0]] + forecasts[1..];
      ForecastExact(forecasts[0]);
      var next := UpsertForecast(env, db, cycle, forecasts[0]);
      if next.Some? {
        UpsertAllAccepts(env, next.value, cycle, forecasts[1..]);
      }
    }
  }

  /** Forecasts are accepted exactly if every one is well formed and of a stored cell, none contradicts another, and
      each cell, time and model has all four leads. */
  ghost predicate ForecastsAccepted(env: Env, cells: seq<Cell>, forecasts: seq<Forecast>) {
    && TimesReadable(env, cells) && !Conflicting(env, forecasts) && WholeOffer(env, forecasts)
    && forall f :: f in forecasts ==>
         && ForecastAccepted(f) && env.time(f.analysisTime).Some?
         && HasCell(env, cells, f.cell, env.time(f.analysisTime).value)
  }

  lemma StoreForecastsAccepts(env: Env, db: Store, cycle: string, cells: seq<Cell>, forecasts: seq<Forecast>)
    requires cycle in db.cycles && forecasts != []
    ensures StoreForecasts(env, db, cycle, cells, forecasts).Some? <==> ForecastsAccepted(env, cells, forecasts)
  {
    NormalizeExact(env, forecasts);
    ExpectedExact(env, cells);
    if Normalize(env, forecasts).Some? && Expected(env, cells).Some? {
      var unique, expected := Normalize(env, forecasts).value, Expected(env, cells).value;
      GroupsAccepts(env, unique, expected);
      SameExpected(env, cells, unique, forecasts, expected);
      if Groups(env, unique, expected).Some? {
        CompleteExact(env, unique, expected);
        SameWhole(env, unique, forecasts);
        UpsertAllAccepts(env, db, cycle, unique);
      }
    }
  }

  lemma SameExpected(
    env: Env, cells: seq<Cell>, unique: seq<Forecast>, forecasts: seq<Forecast>, expected: set<(string, string)>)
    requires forall f :: f in unique <==> f in forecasts
    requires forall cell, time :: (cell, time) in expected <==> HasCell(env, cells, cell, time)
    ensures AllExpected(env, unique, expected) <==>
              forall f :: f in forecasts ==>
                env.time(f.analysisTime).Some? && HasCell(env, cells, f.cell, env.time(f.analysisTime).value)
  {
  }

  lemma SameWhole(env: Env, unique: seq<Forecast>, forecasts: seq<Forecast>)
    requires forall f :: f in unique <==> f in forecasts
    ensures WholeOffer(env, unique) <==> WholeOffer(env, forecasts)
  {
    forall k ensures Offers(env, unique, k) <==> Offers(env, forecasts, k) {
      SameOffers(env, unique, forecasts, k);
    }
  }

  /** A commit is accepted exactly when its time can be read, every stored cell has an acceptable record, and its
      forecasts, if there are any, are acceptable; whatever the database holds. */
  lemma CommitAccepted(env: Env, db: Store, call: CycleCall)
    ensures CommitCycle(env, db, call).Some? <==>
              && env.time(call.analysisTime).Some? && CellsAccepted(env, call.cells)
              && (call.forecasts != [] ==> ForecastsAccepted(env, call.cells, call.forecasts))
  {
    if env.time(call.analysisTime).Some? {
      var begun := Begun(env, db, call);
      StoreCellsAccepts(env, begun, call.cycle, call.policy, call.cells);
      var stored := StoreCells(env, begun, call.cycle, call.policy, call.cells);
      if stored.Some? {
        StoreCellsFrame(env, begun, call.cycle, call.policy, call.cells);
        if call.forecasts != [] {
          StoreForecastsAccepts(env, stored.value, call.cycle, call.cells, call.forecasts);
        }
      }
    }
  }

  // ---------- imports ----------

  /** Without invalidation a list of cells that are all stored is written like the entries of a legacy file. */
  lemma {:induction false} EntriesAreCells(env: Env, db: Store, cycle: string, entries: seq<Cell>)
    requires AllStorable(entries)
    ensures StoreEntries(env, db, cycle, entries) == StoreCells(env, db, cycle, Preserve, entries)
    decreases |entries|
  {
    if entries != [] {
      forall i | 0 <= i < |entries[1..]| ensures entries[1..][i] == entries[i + 1] {
      }
      var next := StoreCell(env, db, cycle, Preserve, entries[0]);
      if next.Some? {
        EntriesAreCells(env, next.value, cycle, entries[1..]);
      }
    }
  }

  /** What the first import of a file leaves in the whole database, and when it is accepted. */
  lemma ImportExact(env: Env, db: Store, file: LegacyFile, key: ObservationKey, k: ForecastKey)
    requires file.path !in db.sources
    ensures ImportLegacy(env, db, file).Some? <==>
              && AllStorable(file.entries) && CellsAccepted(env, file.entries)
              && env.time(file.fallback).Some? && "legacy:" + file.digest !in db.cycles
    ensures ImportLegacy(env, db, file).Some? ==>
              var out, cycle := ImportLegacy(env, db, file).value, "legacy:" + file.digest;
              && out.cycles == db.cycles[cycle := Cycle(env.time(file.fallback).value, "legacy-imported", "")]
              && out.sources == db.sources[file.path := Source(file.digest, |file.entries|, |file.entries|)]
              && CellsStored(env, db, out, cycle, Preserve, file.entries, key, k)
  {
    if AllStorable(file.entries) && env.time(file.fallback).Some? {
      var cycle, begun := "legacy:" + file.digest, ImportBegun(env, db, file);
      EntriesAreCells(env, begun, cycle, file.entries);
      StoreCellsAccepts(env, begun, cycle, Preserve, file.entries);
      if StoreEntries(env, begun, cycle, file.entries).Some? {
        CellsExact(env, begun, cycle, Preserve, file.entries, key, k);
      }
    }
  }
}
