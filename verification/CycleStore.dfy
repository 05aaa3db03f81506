/**
 The cycle store of src/EdgeWARN/stormprob/database.py.  Tables are maps; `writer()` is
 one atomic step, so an operation returns either a new store or nothing at all.
 */
module CycleStore {
  import opened Numbers
  import opened Wrappers

  const LEADS: set<int> := {15, 30, 45, 60}

  const PENDING_MODEL := "stormprob-pending/v1"

  const FEATURE_COUNT: nat := 135

  const RAY_COUNT: nat := 64

  datatype Cycle = Cycle(time: string, state: string, projection: string)

  datatype ObservationKey = ObservationKey(cell: string, time: string, schema: string)

  datatype ForecastKey = ForecastKey(cell: string, time: string, lead: int, model: string)

  datatype Row = Row(
    cycle: string, status: string, reason: Option<string>,
    east: Option<Number>, north: Option<Number>, threshold: Option<Number>, polygon: Option<string>, details: string)

  datatype Source = Source(digest: string, entries: nat, imported: nat)

  datatype Store = Store(
    cycles: map<string, Cycle>,
    observations: map<ObservationKey, string>,  // the cycle that last wrote the row
    features: map<ObservationKey, seq<Number>>,
    profiles: map<ObservationKey, seq<Number>>,
    forecasts: map<ForecastKey, Row>,
    sources: map<string, Source>)

  const EMPTY_STORE := Store(map[], map[], map[], map[], map[], map[])

  /** `time` normalises a timestamp to UTC text, or fails. */
  datatype Env = Env(time: string -> Option<string>)

  datatype Record = Record(
    analysisTime: string, schema: string, features: seq<Number>, profile: seq<Number>,
    area: Number, logArea: Option<Number>, ready: bool)

  /** `record` is the attached observation, or what the extractor builds; `None` if it raises. */
  datatype Cell = NotADict | Cell(id: Option<string>, timestamp: Option<string>, record: Option<Record>)

  datatype Forecast = Forecast(
    cell: string, analysisTime: string, model: string, lead: int, status: string, reason: Option<string>,
    east: Option<Number>, north: Option<Number>, threshold: Option<Number>, polygon: Option<string>, details: string)

  // ---------- observations ----------

  predicate AllFinite(values: seq<Number>) {
    forall i :: 0 <= i < |values| ==> values[i].Finite?
  }

  predicate FiniteVector(values: seq<Number>, count: nat) {
    |values| == count && AllFinite(values)
  }

  predicate ValidRecord(env: Env, record: Record) {
    && env.time(record.analysisTime).Some?
    && FiniteVector(record.features, FEATURE_COUNT) && FiniteVector(record.profile, RAY_COUNT)
    && record.area.Finite? && (record.logArea.Some? ==> record.logArea.value.Finite?)
  }

  /** The pending placeholder of one lead: a new row, or the old row with its state columns rewritten. */
  function PendingRow(old_: Option<Row>, cycle: string, ready: bool): Row {
    var status := if ready then "not-computed" else "skipped";
    var reason := Some(if ready then "model-not-deployed" else "input-not-ready");
    match old_
    case None => Row(cycle, status, reason, None, None, None, None, "")
    case Some(row) => row.(cycle := cycle, status := status, reason := reason)
  }

  function GetRow(forecasts: map<ForecastKey, Row>, key: ForecastKey): Option<Row> {
    if key in forecasts then Some(forecasts[key]) else None
  }

  function PutPending(forecasts: map<ForecastKey, Row>, cell: string, time: string, leads: seq<int>, cycle: string,
      ready: bool): map<ForecastKey, Row>
    decreases |leads|
  {
    if leads == [] then forecasts
    else
      var key := ForecastKey(cell, time, leads[0], PENDING_MODEL);
      PutPending(forecasts[key := PendingRow(GetRow(forecasts, key), cycle, ready)], cell, time, leads[1..], cycle,
          ready)
  }

  const LEAD_LIST: seq<int> := [15, 30, 45, 60]

  function UpsertObservation(env: Env, db: Store, cell: string, record: Record, cycle: string): Option<Store> {
    if !ValidRecord(env, record) || cycle !in db.cycles then None
    else
      var time := env.time(record.analysisTime).value;
      var key := ObservationKey(cell, time, record.schema);
      Some(db.(observations := db.observations[key := cycle],
               features := db.features[key := record.features],
               profiles := db.profiles[key := record.profile],
               forecasts := PutPending(db.forecasts, cell, time, LEAD_LIST, cycle, record.ready)))
  }

  // ---------- forecasts ----------

  function KeyOf(env: Env, f: Forecast): Option<ForecastKey> {
    match env.time(f.analysisTime)
    case None => None
    case Some(time) => Some(ForecastKey(f.cell, time, f.lead, f.model))
  }

  /** The prior forecast under the same key, if any. */
  function Prior(env: Env, unique: seq<Forecast>, key: ForecastKey): Option<Forecast>
    decreases |unique|
  {
    if unique == [] then None
    else if KeyOf(env, unique[0]) == Some(key) then Some(unique[0])
    else Prior(env, unique[1..], key)
  }

  /** Collapses identical duplicates and rejects conflicting ones. */
  function NormalizeFrom(env: Env, unique: seq<Forecast>, rest: seq<Forecast>): Option<seq<Forecast>>
    decreases |rest|
  {
    if rest == [] then Some(unique)
    else
      match KeyOf(env, rest[0])
      case None => None
      case Some(key) =>
        match Prior(env, unique, key)
        case None => NormalizeFrom(env, unique + [rest[0]], rest[1..])
        case Some(prior) => if prior != rest[0] then None else NormalizeFrom(env, unique, rest[1..])
  }

  function Normalize(env: Env, forecasts: seq<Forecast>): Option<seq<Forecast>> {
    NormalizeFrom(env, [], forecasts)
  }

  predicate FiniteIfPresent(n: Option<Number>) {
    n.Some? ==> n.value.Finite?
  }

  const STATUSES: set<string> := {"ok", "no-polygon", "skipped", "error"}

  predicate ValidForecast(f: Forecast) {
    && f.lead in LEADS && f.model != "" && f.model != PENDING_MODEL && f.status in STATUSES
    && FiniteIfPresent(f.east) && FiniteIfPresent(f.north) && FiniteIfPresent(f.threshold)
    && (f.status == "ok" ==> f.east.Some? && f.north.Some? && f.polygon.Some?)
  }

  function UpsertForecast(env: Env, db: Store, cycle: string, f: Forecast): Option<Store> {
    if !ValidForecast(f) || KeyOf(env, f).None? || cycle !in db.cycles then None
    else
      Some(db.(forecasts := db.forecasts[KeyOf(env, f).value :=
        Row(cycle, f.status, f.reason, f.east, f.north, f.threshold, f.polygon, f.details)]))
  }

  function UpsertAll(env: Env, db: Store, cycle: string, forecasts: seq<Forecast>): Option<Store>
    decreases |forecasts|
  {
    if forecasts == [] then Some(db)
    else
      match UpsertForecast(env, db, cycle, forecasts[0])
      case None => None
      case Some(next) => UpsertAll(env, next, cycle, forecasts[1..])
  }

  datatype Group = Group(cell: string, time: string, model: string)

  function GroupOf(key: ForecastKey): Group {
    Group(key.cell, key.time, key.model)
  }

  /** The leads each group offers; `None` if a forecast is not of this cycle's cells. */
  function Groups(env: Env, forecasts: seq<Forecast>, expected: set<(string, string)>): Option<map<Group, set<int>>>
    decreases |forecasts|
  {
    if forecasts == [] then Some(map[])
    else
      var last := forecasts[|forecasts| - 1];
      match (Groups(env, forecasts[..|forecasts| - 1], expected), KeyOf(env, last))
      case (Some(groups), Some(key)) =>
        if (key.cell, key.time) !in expected then None
        else
          var group := GroupOf(key);
          var leads := if group in groups then groups[group] else {};
          Some(groups[group := leads + {key.lead}])
      case _ => None
  }

  predicate Complete(groups: map<Group, set<int>>) {
    forall g :: g in groups ==> groups[g] == LEADS
  }

  // ---------- one cycle ----------

  datatype Policy = Invalidate | Preserve

  /** The part of a cell dictionary that decides whether it is stored. */
  predicate Storable(cell: Cell) {
    cell.Cell? && cell.id.Some? && cell.timestamp.Some? && cell.timestamp.value != ""
  }

  function DropModels(forecasts: map<ForecastKey, Row>, cell: string, time: string): map<ForecastKey, Row> {
    map k | k in forecasts && (k.cell != cell || k.time != time || k.model == PENDING_MODEL) :: forecasts[k]
  }

  function StoreCell(env: Env, db: Store, cycle: string, policy: Policy, cell: Cell): Option<Store> {
    if !Storable(cell) then Some(db)
    else
      match cell.record
      case None => None
      case Some(record) =>
        if policy.Invalidate? && env.time(record.analysisTime).None? then None
        else
          var cleared := if policy.Invalidate?
            then db.(forecasts := DropModels(db.forecasts, cell.id.value, env.time(record.analysisTime).value)) else db;
          UpsertObservation(env, cleared, cell.id.value, record, cycle)
  }

  function StoreCells(env: Env, db: Store, cycle: string, policy: Policy, cells: seq<Cell>): Option<Store>
    decreases |cells|
  {
    if cells == [] then Some(db)
    else
      match StoreCell(env, db, cycle, policy, cells[0])
      case None => None
      case Some(next) => StoreCells(env, next, cycle, policy, cells[1..])
  }

  /** The (cell, time) pairs of the stored cells; `None` if a timestamp does not parse. */
  function Expected(env: Env, cells: seq<Cell>): Option<set<(string, string)>>
    decreases |cells|
  {
    if cells == [] then Some({})
    else
      match Expected(env, cells[1..])
      case None => None
      case Some(rest) =>
        if !Storable(cells[0]) then Some(rest)
        else
          match env.time(cells[0].timestamp.value)
          case None => None
          case Some(time) => Some({(cells[0].id.value, time)} + rest)
  }

  function StoreForecasts(env: Env, db: Store, cycle: string, cells: seq<Cell>, forecasts: seq<Forecast>):
      Option<Store> {
    if forecasts == [] then Some(db)
    else
      match (Normalize(env, forecasts), Expected(env, cells))
      case (Some(unique), Some(expected)) =>
        (match Groups(env, unique, expected)
         case None => None
         case Some(groups) => if Complete(groups) then UpsertAll(env, db, cycle, unique) else None)
      case _ => None
  }

  datatype CycleCall = CycleCall(
    cycle: string, analysisTime: string, cells: seq<Cell>, projection: string, policy: Policy, forecasts: seq<Forecast>)

  /** The store with the row of the cycle that begins. */
  function Begun(env: Env, db: Store, call: CycleCall): Store
    requires env.time(call.analysisTime).Some?
  {
    var cycle := Cycle(env.time(call.analysisTime).value, "inputs-committed", call.projection);
    db.(cycles := db.cycles[call.cycle := cycle])
  }

  function CommitCycle(env: Env, db: Store, call: CycleCall): Option<Store> {
    match env.time(call.analysisTime)
    case None => None
    case Some(time) =>
      match StoreCells(env, Begun(env, db, call), call.cycle, call.policy, call.cells)
      case None => None
      case Some(stored) => StoreForecasts(env, stored, call.cycle, call.cells, call.forecasts)
  }

  // ---------- legacy import ----------

  /** One file: its path, digest and entries; `fallback` is the first entry's own timestamp. */
  datatype LegacyFile = LegacyFile(path: string, digest: string, entries: seq<Cell>, fallback: string)

  /** The store with the row of the cycle that stands for the import. */
  function ImportBegun(env: Env, db: Store, file: LegacyFile): Store
    requires env.time(file.fallback).Some?
  {
    db.(cycles := db.cycles["legacy:" + file.digest := Cycle(env.time(file.fallback).value, "legacy-imported", "")])
  }

  function StoreEntries(env: Env, db: Store, cycle: string, entries: seq<Cell>): Option<Store>
    decreases |entries|
  {
    if entries == [] then Some(db)
    else if entries[0].NotADict? || entries[0].id.None? || entries[0].record.None? then None
    else
      match UpsertObservation(env, db, entries[0].id.value, entries[0].record.value, cycle)
      case None => None
      case Some(next) => StoreEntries(env, next, cycle, entries[1..])
  }

  predicate AllStorable(entries: seq<Cell>) {
    forall i :: 0 <= i < |entries| ==> Storable(entries[i])
  }

  function ImportLegacy(env: Env, db: Store, file: LegacyFile): Option<Store> {
    if file.path in db.sources then
      if db.sources[file.path].digest != file.digest || db.sources[file.path].entries != |file.entries| then None
      else Some(db)
    else if !AllStorable(file.entries) then None
    else
      var cycle := "legacy:" + file.digest;
      match env.time(file.fallback)
      case None => None
      case Some(time) =>
        if cycle in db.cycles then None
        else
          match StoreEntries(env, ImportBegun(env, db, file), cycle, file.entries)
          case None => None
          case Some(stored) =>
            Some(stored.(sources := stored.sources[file.path := Source(file.digest, |file.entries|, |file.entries|)]))
  }

  // ---------- runs ----------

  datatype Request = Commit(call: CycleCall) | Import(file: LegacyFile)

  /** A failed request rolls back. */
  function Serve(env: Env, db: Store, request: Request): Store {
    var r := match request
      case Commit(call) => CommitCycle(env, db, call)
      case Import(file) => ImportLegacy(env, db, file);
    match r case None => db case Some(next) => next
  }

  function ServeAll(env: Env, db: Store, requests: seq<Request>): Store
    decreases |requests|
  {
    if requests == [] then db else ServeAll(env, Serve(env, db, requests[0]), requests[1..])
  }
}
