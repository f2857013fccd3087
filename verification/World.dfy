// The service as a state machine: database, file system and clock, and what every call
// and every change of the environment makes of them.
module World {
  import opened Options
  import opened Paths
  import opened PathLists
  import opened Files
  import opened Storage
  import opened Tables
  import opened Invariants
  import opened Resolver

  datatype Config = Config(mirrorMode: bool, areas: seq<StorageArea>)

  datatype World = World(config: Config, db: Db, disk: Disk, clock: Time)

  /** One call of the service, or one change of its environment. */
  datatype Event =
    | Stage(id: StageId, created: Time, logicals: seq<Path>, times: seq<Time>)
    | Status(id: StageId, now: Time)
    | Cancel(id: StageId, paths: seq<Path>, now: Time)
    | Erase(id: StageId)
    | TakeOver(limit: nat, selected: seq<Path>, refused: set<Path>, now: Time)
    | Environment(disk: Disk)
    | Tick(now: Time)

  // ---- Stage ----

  /** A file that is not a regular file on disk is born failed, any other submitted. */
  function NewFile(config: Config, disk: Disk, logical: Path, t: Time): File
    requires ValidAreas(config.areas)
  {
    var physical := Resolve(config.areas, logical);
    if Look(disk, physical).regular then File(logical, physical, Submitted, 0, 0)
    else File(logical, physical, Failed, t, t)
  }

  function NewRows(config: Config, disk: Disk, id: StageId, logicals: seq<Path>, times: seq<Time>): (r: seq<Row>)
    requires ValidAreas(config.areas) && |logicals| <= |times|
    ensures |r| == |logicals|
  {
    seq(|logicals|, i requires 0 <= i < |logicals| => Row(id, NewFile(config, disk, logicals[i], times[i])))
  }

  // ---- Status ----

  /** What the storage answers make of the state of a file.  Failed queries read as "no";
      only for a submitted file a failed query of the recall attribute is fatal. */
  function NextState(s: State, x: Facts): State {
    match s
    case Started =>
      if x.recall == Answer.Ok(true) then Started else if SeenAsStub(x) then Failed else Completed
    case Submitted =>
      if x.recall == Answer.Ok(true) then Started
      else if x.recall.Error? then Failed
      else if SeenAsStub(x) then Submitted
      else Completed
    case _ => s
  }

  /** The file as status reports it. */
  function StatusFile(f: File, x: Facts, now: Time): File {
    var s := NextState(f.state, x);
    if s == f.state then f
    else if f.state.Started? then f.(state := s, finishedAt := now)
    else if s.Started? then f.(state := s, startedAt := now)
    else f.(state := s, startedAt := now, finishedAt := now)
  }

  /** The files of a stage as status reports them. */
  function Report(files: seq<File>, disk: Disk, now: Time): (r: seq<File>)
    ensures |r| == |files|
  {
    seq(|files|, k requires 0 <= k < |files| => StatusFile(files[k], Look(disk, files[k].physical), now))
  }

  /** The updates status sends to the database, by physical path. */
  function StatusPairs(files: seq<File>, disk: Disk): seq<(Path, State)> {
    if files == [] then []
    else
      var n := |files| - 1;
      var f := files[n];
      var s := NextState(f.state, Look(disk, f.physical));
      StatusPairs(files[..n], disk) + if s == f.state then [] else [(f.physical, s)]
  }

  ghost predicate HasRow(rows: seq<Row>, id: StageId, p: Path, s: State) {
    exists i :: 0 <= i < |rows| && rows[i].stage == id && rows[i].file.physical == p && rows[i].file.state == s
  }

  /** The state to which a stage moves a physical path, if it does. */
  ghost function Target(rows: seq<Row>, id: StageId, disk: Disk, p: Path): Option<State> {
    var x := Look(disk, p);
    if HasRow(rows, id, p, Started) && NextState(Started, x) != Started then Some(NextState(Started, x))
    else if HasRow(rows, id, p, Submitted) && NextState(Submitted, x) != Submitted then Some(NextState(Submitted, x))
    else None
  }

  ghost function StatusTargets(rows: seq<Row>, id: StageId, disk: Disk): map<Path, State> {
    var paths := set i | 0 <= i < |rows| :: rows[i].file.physical;
    map p | p in paths && Target(rows, id, disk, p).Some? :: Target(rows, id, disk, p).value
  }

  ghost function StatusRows(rows: seq<Row>, id: StageId, disk: Disk, now: Time): (r: seq<Row>)
    ensures |r| == |rows|
  {
    Retarget(rows, StatusTargets(rows, id, disk), now)
  }

  ghost function StatusDb(db: Db, id: StageId, disk: Disk, now: Time): Db {
    if id !in db.stages then db
    else
      var rows := StatusRows(db.rows, id, disk, now);
      Db(db.stages[id := Refreshed(db.stages[id], FilesOf(rows, id))], rows)
  }

  // ---- Cancel and erase ----

  /** The paths the cancel and release requests can name: all files of the stage that no
      earlier file exceeds in the order of paths. */
  function Recognised(rows: seq<Row>, id: StageId): seq<Path> {
    Records(Logicals(FilesOf(rows, id)))
  }

  function CancelDb(db: Db, id: StageId, paths: seq<Path>, now: Time): Db {
    if id in db.stages && multiset(paths) <= multiset(Recognised(db.rows, id))
    then Db(db.stages, Overwrite(db.rows, id, paths, Cancelled, now))
    else db
  }

  function EraseDb(db: Db, id: StageId): Db {
    if id in db.stages then Db(db.stages - {id}, Erased(db.rows, id)) else db
  }

  // ---- Take over ----

  datatype Class = Recalling | NeedsRecall | AlreadyOnDisk | Hopeless

  /** The four classes into which the selected paths are partitioned. */
  function ClassOf(x: Facts): Class {
    match LocalityOf(x)
    case OnTape | Lost => if x.recall == Answer.Ok(true) then Recalling else NeedsRecall
    case OnDisk | OnDiskAndTape => AlreadyOnDisk
    case Unavailable | NoBytes => Hopeless
  }

  function ClassState(c: Class): State {
    match c
    case Recalling | NeedsRecall => Started
    case AlreadyOnDisk => Completed
    case Hopeless => Failed
  }

  function ReadyPaths(rows: seq<Row>): set<Path> {
    PathsIn(rows, Submitted)
  }

  function TakeOverTargets(selected: seq<Path>, disk: Disk): map<Path, State> {
    map p | p in selected :: ClassState(ClassOf(Look(disk, p)))
  }

  function HandedOut(selected: seq<Path>, disk: Disk): set<Path> {
    set p | p in selected && ClassOf(Look(disk, p)).NeedsRecall?
  }

  function MarkRecalls(w: World, selected: seq<Path>, refused: set<Path>): Disk {
    if w.config.mirrorMode then w.disk else WithRecall(w.disk, HandedOut(selected, w.disk) - refused)
  }

  // ---- The machine ----

  ghost predicate WorldOk(w: World) {
    Inv(w.db, w.clock) && ValidAreas(w.config.areas)
  }

  /** The clock never goes back; identifiers are fresh; a request names some file; the
      sorted, duplicate-free list of its paths is what reaches the database. */
  ghost predicate Enabled(w: World, e: Event) {
    match e
    case Stage(id, created, logicals, times) =>
      && id !in w.db.stages
      && w.clock <= created
      && logicals != [] && StrictlySorted(logicals) && AllWellFormed(logicals)
      && |times| == |logicals|
      && (forall i :: 0 <= i < |times| ==> created <= times[i] <= times[|times| - 1])
    case Status(_, now) => w.clock <= now
    case Cancel(_, _, now) => w.clock <= now
    case Erase(_) => true
    case TakeOver(limit, selected, _, now) => 1 <= limit && IsSelection(w.db.rows, Submitted, limit, selected) && w.clock <= now
    case Environment(_) => true
    case Tick(now) => w.clock <= now
  }

  ghost function Apply(w: World, e: Event): World
    requires WorldOk(w) && Enabled(w, e)
  {
    match e
    case Stage(id, created, logicals, times) =>
      w.(db := Db(w.db.stages[id := Times(created, 0, 0)],
                  w.db.rows + NewRows(w.config, w.disk, id, logicals, times)),
         clock := times[|times| - 1])
    case Status(id, now) => w.(db := StatusDb(w.db, id, w.disk, now), clock := now)
    case Cancel(id, paths, now) => w.(db := CancelDb(w.db, id, paths, now), clock := now)
    case Erase(id) => w.(db := EraseDb(w.db, id))
    case TakeOver(limit, selected, refused, now) =>
      w.(db := Db(w.db.stages, Retarget(w.db.rows, TakeOverTargets(selected, w.disk), now)),
         disk := MarkRecalls(w, selected, refused),
         clock := now)
    case Environment(disk) => w.(disk := disk)
    case Tick(now) => w.(clock := now)
  }

  // ---- Every step keeps the invariant ----

  lemma StatusKeepsInv(db: Db, id: StageId, disk: Disk, clock: Time, now: Time)
    requires Inv(db, clock) && clock <= now
    ensures Inv(StatusDb(db, id, disk, now), now)
  {
    var rows := if id in db.stages then StatusRows(db.rows, id, disk, now) else db.rows;
    if id in db.stages {
      RetargetEvolves(db, StatusTargets(db.rows, id, disk), clock, now);
      InvEvolves(db, rows, clock, now);
      RefreshKeepsInv(Db(db.stages, rows), id, now);
    } else {
      InvLater(db, clock, now);
    }
  }

  lemma InvLater(db: Db, clock: Time, now: Time)
    requires Inv(db, clock) && clock <= now
    ensures Inv(db, now)
  {
    InvEvolves(db, db.rows, clock, now);
  }

  lemma CancelKeepsInv(db: Db, id: StageId, paths: seq<Path>, clock: Time, now: Time)
    requires Inv(db, clock) && clock <= now
    ensures Inv(CancelDb(db, id, paths, now), now)
  {
    OverwriteEvolves(db, id, paths, Cancelled, clock, now);
    InvEvolves(db, Overwrite(db.rows, id, paths, Cancelled, now), clock, now);
    InvLater(db, clock, now);
  }

  lemma {:induction false} ErasedRows(rows: seq<Row>, id: StageId)
    ensures forall r :: r in Erased(rows, id) <==> r in rows && r.stage != id
    ensures UniqueKeys(rows) ==> UniqueKeys(Erased(rows, id))
  {
    if rows != [] {
      var t := rows[1..];
      ErasedRows(t, id);
      assert forall r :: r in rows <==> r == rows[0] || r in t;
      var e := Erased(t, id);
      if UniqueKeys(rows) && rows[0].stage != id {
        forall k | 0 <= k < |e| ensures e[k].stage != rows[0].stage || e[k].file.logical != rows[0].file.logical {
          assert e[k] in t;
          var m :| 0 <= m < |t| && t[m] == e[k];
          assert rows[m + 1] == e[k];
        }
      }
    }
  }

  lemma ErasedFrom(rows: seq<Row>, id: StageId, k: nat) returns (i: nat)
    requires k < |Erased(rows, id)|
    ensures i < |rows| && rows[i] == Erased(rows, id)[k] && rows[i].stage != id
  {
    ErasedRows(rows, id);
    assert Erased(rows, id)[k] in rows;
    i :| 0 <= i < |rows| && rows[i] == Erased(rows, id)[k];
    assert rows[i] in Erased(rows, id);
  }

  lemma ErasedTo(rows: seq<Row>, id: StageId, i: nat) returns (k: nat)
    requires i < |rows| && rows[i].stage != id
    ensures k < |Erased(rows, id)| && rows[i] == Erased(rows, id)[k]
  {
    ErasedRows(rows, id);
    assert rows[i] in Erased(rows, id);
    k :| 0 <= k < |Erased(rows, id)| && rows[i] == Erased(rows, id)[k];
  }

  lemma OtherStageErased(rows: seq<Row>, id: StageId, other: StageId, t: Times, clock: Time)
    requires StageOk(rows, other, t, clock) && other != id
    ensures StageOk(Erased(rows, id), other, t, clock)
  {
    var e := Erased(rows, id);
    forall k | 0 <= k < |e| && e[k].stage == other
      ensures t.startedAt != 0 && !e[k].file.state.Submitted? ==> t.startedAt <= e[k].file.startedAt
      ensures t.completedAt != 0 ==> IsFinal(e[k].file.state)
    {
      var i := ErasedFrom(rows, id, k);
    }
    var i :| 0 <= i < |rows| && rows[i].stage == other;
    var k := ErasedTo(rows, id, i);
    if t.startedAt != 0 {
      var j :| 0 <= j < |rows| && rows[j].stage == other && !rows[j].file.state.Submitted? && rows[j].file.startedAt == t.startedAt;
      var l := ErasedTo(rows, id, j);
    }
    if t.completedAt != 0 {
      var j :| 0 <= j < |rows| && rows[j].stage == other && t.completedAt <= rows[j].file.finishedAt;
      var l := ErasedTo(rows, id, j);
    }
  }

  lemma ErasedOneState(rows: seq<Row>, id: StageId)
    requires OneStatePerPath(rows)
    ensures OneStatePerPath(Erased(rows, id))
  {
    var e := Erased(rows, id);
    forall k, l | 0 <= k < |e| && 0 <= l < |e|
                  && e[k].stage == e[l].stage && e[k].file.physical == e[l].file.physical
                  && !IsFinal(e[k].file.state) && !IsFinal(e[l].file.state)
      ensures e[k].file.state == e[l].file.state
    {
      var i := ErasedFrom(rows, id, k);
      var j := ErasedFrom(rows, id, l);
    }
  }

  lemma ErasedRowOk(db: Db, id: StageId, clock: Time, k: nat)
    requires Inv(db, clock) && k < |Erased(db.rows, id)|
    ensures RowOk(Erased(db.rows, id)[k], db.stages - {id}, clock)
  {
    hide Inv, LifeCycle, WellFormed;
    var i := ErasedFrom(db.rows, id, k);
    RowIsOk(db, clock, i);
  }

  lemma EraseKeepsInv(db: Db, id: StageId, clock: Time)
    requires Inv(db, clock)
    ensures Inv(EraseDb(db, id), clock)
  {
    if id in db.stages {
      var e := Erased(db.rows, id);
      var next := EraseDb(db, id);
      ErasedRows(db.rows, id);
      ErasedOneState(db.rows, id);
      forall k | 0 <= k < |e| ensures RowOk(e[k], next.stages, clock) {
        ErasedRowOk(db, id, clock, k);
      }
      forall other | other in next.stages ensures StageOk(e, other, next.stages[other], clock) {
        OtherStageErased(db.rows, id, other, db.stages[other], clock);
      }
    }
  }

  lemma OtherStageExtended(rows: seq<Row>, more: seq<Row>, other: StageId, t: Times, clock: Time, now: Time)
    requires StageOk(rows, other, t, clock) && clock <= now
    requires forall i :: 0 <= i < |more| ==> more[i].stage != other
    ensures StageOk(rows + more, other, t, now)
  {
    var all := rows + more;
    var i :| 0 <= i < |rows| && rows[i].stage == other;
    assert all[i] == rows[i];
    if t.startedAt != 0 {
      var j :| 0 <= j < |rows| && rows[j].stage == other && !rows[j].file.state.Submitted? && rows[j].file.startedAt == t.startedAt;
      assert all[j] == rows[j];
    }
    if t.completedAt != 0 {
      var j :| 0 <= j < |rows| && rows[j].stage == other && t.completedAt <= rows[j].file.finishedAt;
      assert all[j] == rows[j];
    }
  }

  /** Rows of a fresh stage, submitted or born failed, with distinct logical paths. */
  ghost predicate FreshRows(more: seq<Row>, id: StageId, created: Time, now: Time) {
    && UniqueKeys(more)
    && more != []
    && forall i :: 0 <= i < |more| ==>
         && more[i].stage == id
         && WellFormed(more[i].file.logical)
         && (more[i].file.state.Submitted? || more[i].file.state.Failed?)
         && LifeCycle(more[i].file, now)
         && (more[i].file.state.Failed? ==> created <= more[i].file.startedAt)
  }

  lemma NewRowsFresh(w: World, e: Event)
    requires WorldOk(w) && e.Stage? && Enabled(w, e)
    ensures FreshRows(NewRows(w.config, w.disk, e.id, e.logicals, e.times), e.id, e.created, e.times[|e.times| - 1])
  {
    var more := NewRows(w.config, w.disk, e.id, e.logicals, e.times);
    forall i, j | 0 <= i < j < |more| ensures more[i].file.logical != more[j].file.logical {
      PathTotal(e.logicals[i], e.logicals[j]);
      assert more[i].file.logical == e.logicals[i] && more[j].file.logical == e.logicals[j];
    }
    forall i | 0 <= i < |more| ensures e.created <= e.times[i] <= e.times[|e.times| - 1] {}
  }

  lemma InsertKeepsInv(db: Db, id: StageId, more: seq<Row>, clock: Time, created: Time, now: Time)
    requires Inv(db, clock) && id !in db.stages && clock <= created <= now
    requires FreshRows(more, id, created, now)
    ensures Inv(Db(db.stages[id := Times(created, 0, 0)], db.rows + more), now)
  {
    var rows, stages := db.rows, db.stages[id := Times(created, 0, 0)];
    var all := rows + more;
    forall i | 0 <= i < |rows| ensures RowOk(rows[i], stages, now) && rows[i].stage != id {
      assert RowOk(rows[i], db.stages, clock);
    }
    forall i | 0 <= i < |all| ensures RowOk(all[i], stages, now) {
      if i >= |rows| { assert all[i] == more[i - |rows|]; }
    }
    forall k | k in stages ensures StageOk(all, k, stages[k], now) {
      if k == id {
        assert all[|rows|] == more[0];
      } else {
        OtherStageExtended(rows, more, k, db.stages[k], clock, now);
      }
    }
  }

  lemma StageKeepsInv(w: World, e: Event)
    requires WorldOk(w) && e.Stage? && Enabled(w, e)
    ensures WorldOk(Apply(w, e))
  {
    NewRowsFresh(w, e);
    assert e.created <= e.times[0] <= e.times[|e.times| - 1];
    InsertKeepsInv(w.db, e.id, NewRows(w.config, w.disk, e.id, e.logicals, e.times), w.clock, e.created, e.times[|e.times| - 1]);
  }

  /** Main result: every call and every change of the environment keeps the invariant. */
  lemma StepKeepsInvariant(w: World, e: Event)
    requires WorldOk(w) && Enabled(w, e)
    ensures WorldOk(Apply(w, e))
  {
    match e
    case Stage(_, _, _, _) => StageKeepsInv(w, e);
    case Status(id, now) => StatusKeepsInv(w.db, id, w.disk, w.clock, now);
    case Cancel(id, paths, now) => CancelKeepsInv(w.db, id, paths, w.clock, now);
    case Erase(id) => EraseKeepsInv(w.db, id, w.clock);
    case TakeOver(_, selected, _, now) =>
      RetargetEvolves(w.db, TakeOverTargets(selected, w.disk), w.clock, now);
      InvEvolves(w.db, Retarget(w.db.rows, TakeOverTargets(selected, w.disk), now), w.clock, now);
    case Environment(_) =>
    case Tick(now) => InvLater(w.db, w.clock, now);
  }
}
