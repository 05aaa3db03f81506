/**
 The journaled multi-file commit of src/EdgeWARN/ctam/publication.py.

 A disk is a value.  Every write, rename and journal update is one step, and the
 disk carries a script that says how each coming step ends: it works, it raises
 before or after taking effect, or the process dies.  Quantifying over disks
 therefore quantifies over every crash point and every I/O error.
 */
module Publication {
  import opened Wrappers

  datatype Path = Path(dir: string, name: string)

  type Bytes = string
  type Digest = string

  /** The digest and the JSON parser are parameters of the model. */
  datatype Env = Env(hash: Bytes -> Digest, parses: Bytes -> bool)

  ghost predicate Injective(env: Env) {
    forall a, b :: env.hash(a) == env.hash(b) ==> a == b
  }

  /** How one disk step ends.  `torn` is what a non-atomic write leaves behind. */
  datatype Outcome =
    | Done
    | Fail(torn: Option<nat>)
    | LateFail
    | Crash(torn: Option<nat>)

  datatype Status = Ok | Raised | Died

  datatype JournalState = Prepared | Committed

  datatype Item = Item(target: Path, temporary: Path, preHash: Option<Digest>, postHash: Digest, replaced: bool)

  datatype Journal = Journal(txn: string, state: JournalState, items: seq<Item>, dependency: Option<string>)

  datatype Event =
    | AlertsRan(seen: map<Path, Bytes>)
    | IndexesRan(seen: map<Path, Bytes>)
    | Quarantined(id: string)

  datatype Disk = Disk(
    files: map<Path, Bytes>,
    journals: map<string, Journal>,
    quarantine: map<string, Journal>,
    script: seq<Outcome>,
    log: seq<Event>)

  datatype Step = Step(disk: Disk, status: Status)

  // ---------- primitive steps ----------

  function NextOutcome(d: Disk): Outcome {
    if d.script == [] then Done else d.script[0]
  }

  function Tick(d: Disk): Disk {
    if d.script == [] then d else d.(script := d.script[1..])
  }

  function StatusOf(o: Outcome): Status {
    match o
    case Done => Ok
    case Fail(_) => Raised
    case LateFail => Raised
    case Crash(_) => Died
  }

  /** Does a step that replaces a name atomically take effect? */
  predicate TakesEffect(o: Outcome) {
    o.Done? || o.LateFail?
  }

  function Torn(files: map<Path, Bytes>, path: Path, content: Bytes, torn: Option<nat>): map<Path, Bytes> {
    match torn
    case None => files
    case Some(n) => files[path := if n < |content| then content[..n] else content]
  }

  /** `Path.write_bytes`: the only step that can leave a file half written. */
  function WriteBytes(d: Disk, path: Path, content: Bytes): Step {
    var o := NextOutcome(d);
    var files := match o
      case Fail(torn) => Torn(d.files, path, content, torn)
      case Crash(torn) => Torn(d.files, path, content, torn)
      case _ => d.files[path := content];
    Step(Tick(d).(files := files), StatusOf(o))
  }

  /** `os.replace`: atomic, and an error when the source is missing. */
  function Replace(d: Disk, source: Path, target: Path): Step {
    var o := NextOutcome(d);
    if source !in d.files then
      Step(Tick(d), if o.Crash? then Died else Raised)
    else if TakesEffect(o) then
      Step(Tick(d).(files := (d.files - {source})[target := d.files[source]]), StatusOf(o))
    else
      Step(Tick(d), StatusOf(o))
  }

  /** `atomic_write_json` on a journal: the old journal or the new one, never a mix. */
  function WriteJournal(d: Disk, id: string, journal: Journal): Step {
    var o := NextOutcome(d);
    if TakesEffect(o) then Step(Tick(d).(journals := d.journals[id := journal]), StatusOf(o))
    else Step(Tick(d), StatusOf(o))
  }

  function MoveToQuarantine(d: Disk, id: string): Step
    requires id in d.journals
  {
    var o := NextOutcome(d);
    if TakesEffect(o) then
      Step(Tick(d).(journals := d.journals - {id},
                    quarantine := d.quarantine[id := d.journals[id]],
                    log := d.log + [Quarantined(id)]), StatusOf(o))
    else Step(Tick(d), StatusOf(o))
  }

  /** A host callback: the event records what the callback could see. */
  function RunCallback(d: Disk, present: bool, event: Event): Step {
    if !present then Step(d, Ok)
    else Step(Tick(d).(log := d.log + [event]), StatusOf(NextOutcome(d)))
  }

  // ---------- the database dependency ----------

  /** `None` is a missing or unreadable database. */
  type Database = Option<map<string, string>>

  predicate CycleCommitted(dependency: Option<string>, db: Database) {
    match dependency
    case None => true
    case Some(cycle) =>
      db.Some? && cycle in db.value && db.value[cycle] in {"inputs-committed", "forecasts-committed"}
  }

  // ---------- publish ----------

  /** A target and its serialised payload; `None` is a payload that is not finite JSON. */
  datatype Payload = Payload(target: Path, content: Option<Bytes>)

  const PART_SUFFIX := ".ctam-part"

  function PartPath(target: Path, txn: string): Path {
    Path(target.dir, "." + target.name + "." + txn + PART_SUFFIX)
  }

  predicate IsPart(path: Path) {
    |path.name| > |PART_SUFFIX| && path.name[0] == '.' && path.name[|path.name| - |PART_SUFFIX|..] == PART_SUFFIX
  }

  datatype Preparation = Preparation(disk: Disk, status: Status, items: seq<Item>)

  function HashOf(env: Env, files: map<Path, Bytes>, path: Path): Option<Digest> {
    if path in files then Some(env.hash(files[path])) else None
  }

  function PrepareOne(env: Env, d: Disk, payload: Payload, txn: string): (r: Preparation) {
    match payload.content
    case None => Preparation(d, Raised, [])
    case Some(content) =>
      var part := PartPath(payload.target, txn);
      var w := WriteBytes(d, part, content);
      if !w.status.Ok? then Preparation(w.disk, w.status, [])
      else if !env.parses(content) then Preparation(w.disk, Raised, [])
      else Preparation(w.disk, Ok,
          [Item(payload.target, part, HashOf(env, w.disk.files, payload.target), env.hash(content), false)])
  }

  function Prepare(env: Env, d: Disk, payloads: seq<Payload>, txn: string): (r: Preparation)
    decreases |payloads|
  {
    if payloads == [] then Preparation(d, Ok, [])
    else
      var one := PrepareOne(env, d, payloads[0], txn);
      if !one.status.Ok? then one
      else
        var rest := Prepare(env, one.disk, payloads[1..], txn);
        rest.(items := one.items + rest.items)
  }

  function InstallOne(env: Env, d: Disk, item: Item): Step {
    var s := Replace(d, item.temporary, item.target);
    if !s.status.Ok? then s
    else if HashOf(env, s.disk.files, item.target) != Some(item.postHash) then s.(status := Raised)
    else s
  }

  function Install(env: Env, d: Disk, items: seq<Item>): Step
    decreases |items|
  {
    if items == [] then Step(d, Ok)
    else
      var s := InstallOne(env, d, items[0]);
      if s.status.Ok? then Install(env, s.disk, items[1..]) else s
  }

  function MarkReplaced(items: seq<Item>): (r: seq<Item>)
    ensures |r| == |items|
    ensures forall i :: 0 <= i < |r| ==> r[i] == items[i].(replaced := true)
  {
    seq(|items|, i requires 0 <= i < |items| => items[i].(replaced := true))
  }

  datatype Call = Call(
    payloads: seq<Payload>, txn: string, dependency: Option<string>, alerts: bool, indexes: bool)

  /** `accepted` says whether the prepared journal reached the disk. */
  datatype Published = Published(disk: Disk, status: Status, accepted: bool)

  /** Alerts go out before the indexes make the cycle discoverable. */
  function Announce(d: Disk, call: Call): Step {
    var alerted := RunCallback(d, call.alerts, AlertsRan(d.files));
    if !alerted.status.Ok? then alerted
    else RunCallback(alerted.disk, call.indexes, IndexesRan(alerted.disk.files))
  }

  /** The tail of `publish`, from the moment the prepared journal is on disk. */
  function Finish(env: Env, d: Disk, call: Call, items: seq<Item>): Step {
    var installed := Install(env, d, items);
    if !installed.status.Ok? then installed else
    var announced := Announce(installed.disk, call);
    if !announced.status.Ok? then announced else
    WriteJournal(announced.disk, call.txn, Journal(call.txn, Committed, MarkReplaced(items), call.dependency))
  }

  function Publish(env: Env, d: Disk, call: Call, db: Database): Published {
    if call.payloads == [] || !CycleCommitted(call.dependency, db) then Published(d, Raised, false)
    else
      var p := Prepare(env, d, call.payloads, call.txn);
      if !p.status.Ok? then Published(p.disk, p.status, false)
      else
        var accepted := TakesEffect(NextOutcome(p.disk));
        var j := WriteJournal(p.disk, call.txn, Journal(call.txn, Prepared, p.items, call.dependency));
        if !j.status.Ok? then Published(j.disk, j.status, accepted)
        else
          var f := Finish(env, j.disk, call, p.items);
          Published(f.disk, f.status, accepted)
  }

  // ---------- recover ----------

  function RecoverItem(env: Env, d: Disk, item: Item): Step {
    if HashOf(env, d.files, item.target) == Some(item.postHash) then Step(d, Ok)
    else if HashOf(env, d.files, item.temporary) != Some(item.postHash) then Step(d, Raised)
    else
      var s := Replace(d, item.temporary, item.target);
      if s.status.Ok? && item.target in s.disk.files && !env.parses(s.disk.files[item.target])
      then s.(status := Raised) else s
  }

  function RecoverItems(env: Env, d: Disk, items: seq<Item>): Step
    decreases |items|
  {
    if items == [] then Step(d, Ok)
    else
      var s := RecoverItem(env, d, items[0]);
      if s.status.Ok? then RecoverItems(env, s.disk, items[1..]) else s
  }

  /** The body of the `try` block for one uncommitted journal. */
  function RollForward(env: Env, d: Disk, id: string, db: Database): Step
    requires id in d.journals
  {
    var journal := d.journals[id];
    if !CycleCommitted(journal.dependency, db) then Step(d, Raised)
    else
      var s := RecoverItems(env, d, journal.items);
      if !s.status.Ok? then s
      else WriteJournal(s.disk, id, journal.(state := Committed))
  }

  datatype Recovery = Recovery(disk: Disk, status: Status, recovered: seq<string>)

  function RecoverJournal(env: Env, d: Disk, id: string, db: Database): Recovery {
    if id !in d.journals || d.journals[id].state.Committed? then Recovery(d, Ok, [])
    else
      var s := RollForward(env, d, id, db);
      match s.status
      case Ok => Recovery(s.disk, Ok, [id])
      case Died => Recovery(s.disk, Died, [])
      case Raised =>
        RollForwardKeepsJournal(env, d, id, db);
        var q := MoveToQuarantine(s.disk, id);
        Recovery(q.disk, q.status, [])
  }

  /** `order` is the listing of the journal directory. */
  function Recover(env: Env, d: Disk, order: seq<string>, db: Database): Recovery
    decreases |order|
  {
    if order == [] then Recovery(d, Ok, [])
    else
      var one := RecoverJournal(env, d, order[0], db);
      if !one.status.Ok? then one
      else
        var rest := Recover(env, one.disk, order[1..], db);
        rest.(recovered := one.recovered + rest.recovered)
  }

  lemma {:induction false} RecoverItemsFrame(env: Env, d: Disk, items: seq<Item>)
    ensures var s := RecoverItems(env, d, items).disk;
            s.journals == d.journals && s.quarantine == d.quarantine && s.log == d.log
    decreases |items|
  {
    if items != [] {
      var s := RecoverItem(env, d, items[0]);
      if s.status.Ok? {
        RecoverItemsFrame(env, s.disk, items[1..]);
      }
    }
  }

  lemma RollForwardKeepsJournal(env: Env, d: Disk, id: string, db: Database)
    requires id in d.journals
    ensures id in RollForward(env, d, id, db).disk.journals
  {
    RecoverItemsFrame(env, d, d.journals[id].items);
  }
}
