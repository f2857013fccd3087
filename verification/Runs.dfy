// Whole runs: any sequence of calls and environment changes, interleaved in any way.
module Runs {
  import opened Paths
  import opened PathLists
  import opened Files
  import opened Storage
  import opened Tables
  import opened Invariants
  import opened World
  import opened TakeOverLaws
  import opened CancelLaws
  import opened StatusLaws
  import opened Resolver

  ghost predicate Initial(w: World) {
    w.db == Db(map[], []) && 0 < w.clock && ValidAreas(w.config.areas)
  }

  ghost predicate Follows(w: World, e: Event, v: World) {
    WorldOk(w) ==> Enabled(w, e) && v == Apply(w, e)
  }

  ghost predicate IsRun(ws: seq<World>, es: seq<Event>) {
    && |ws| == |es| + 1
    && Initial(ws[0])
    && forall i :: 0 <= i < |es| ==> Follows(ws[i], es[i], ws[i + 1])
  }

  /** Main result: the invariant holds in every world of every run. */
  lemma {:induction false} RunKeepsInvariant(ws: seq<World>, es: seq<Event>, i: nat)
    requires IsRun(ws, es) && i <= |es|
    ensures WorldOk(ws[i])
  {
    if i > 0 {
      RunKeepsInvariant(ws, es, i - 1);
      assert Follows(ws[i - 1], es[i - 1], ws[i]);
      StepKeepsInvariant(ws[i - 1], es[i - 1]);
    }
  }

  lemma RunStep(ws: seq<World>, es: seq<Event>, i: nat)
    requires IsRun(ws, es) && i < |es|
    ensures WorldOk(ws[i]) && Enabled(ws[i], es[i]) && ws[i + 1] == Apply(ws[i], es[i]) && WorldOk(ws[i + 1])
  {
    hide Inv, ValidAreas;
    RunKeepsInvariant(ws, es, i);
    RunKeepsInvariant(ws, es, i + 1);
    assert Follows(ws[i], es[i], ws[i + 1]);
  }

  // ---- Rows over runs ----

  /** A file seen later: the same paths, no further from a final state, its start unchanged
      once written, its end never earlier. */
  predicate Later(f: File, g: File) {
    && g.logical == f.logical && g.physical == f.physical
    && Rank(g.state) <= Rank(f.state)
    && (!f.state.Submitted? ==> g.startedAt == f.startedAt)
    && f.finishedAt <= g.finishedAt
  }

  ghost predicate HasLater(rows: seq<Row>, id: StageId, f: File) {
    exists j :: 0 <= j < |rows| && rows[j].stage == id && Later(f, rows[j].file)
  }

  /** The rows of a step that inserts and erases nothing. */
  ghost predicate UpdatesRows(w: World, e: Event)
    requires WorldOk(w) && Enabled(w, e)
  {
    RowsEvolve(w.db.rows, Apply(w, e).db.rows, Apply(w, e).clock)
  }

  lemma OtherStepsUpdate(w: World, e: Event)
    requires WorldOk(w) && Enabled(w, e) && !e.Stage? && !e.Erase?
    ensures UpdatesRows(w, e)
  {
    match e
    case Status(id, now) =>
      RetargetEvolves(w.db, StatusTargets(w.db.rows, id, w.disk), w.clock, now);
    case Cancel(id, paths, now) =>
      OverwriteEvolves(w.db, id, paths, Cancelled, w.clock, now);
    case TakeOver(_, selected, _, now) =>
      RetargetEvolves(w.db, TakeOverTargets(selected, w.disk), w.clock, now);
    case Environment(_) =>
    case Tick(_) =>
  }

  lemma RowAfterStep(w: World, e: Event, i: nat)
    requires WorldOk(w) && Enabled(w, e) && i < |w.db.rows|
    requires e != Event.Erase(w.db.rows[i].stage)
    ensures HasLater(Apply(w, e).db.rows, w.db.rows[i].stage, w.db.rows[i].file)
  {
    hide Inv;
    var r, v := w.db.rows[i], Apply(w, e);
    RowIsOk(w.db, w.clock, i);
    if e.Stage? {
      assert v.db.rows[i] == r;
    } else if e.Erase? {
      if e.id in w.db.stages {
        var j := ErasedTo(w.db.rows, e.id, i);
      } else {
        assert v.db.rows[i] == r;
      }
    } else {
      OtherStepsUpdate(w, e);
      assert v.db.rows[i].stage == r.stage && Evolves(r.file, v.db.rows[i].file, v.clock);
      EvolvedIsLater(r.file, v.db.rows[i].file, w.clock, v.clock);
    }
  }

  lemma EvolvedIsLater(f: File, g: File, clock: Time, now: Time)
    requires LifeCycle(f, clock) && 0 < clock <= now && Evolves(f, g, now)
    ensures Later(f, g)
  {
  }

  /** Main result: as long as its stage is not erased, a row keeps its paths, never moves
      away from a final state, keeps its start once written, and never ends earlier. */
  lemma {:induction false} RowHistory(ws: seq<World>, es: seq<Event>, a: nat, b: nat, i: nat)
    requires IsRun(ws, es) && a <= b <= |es| && i < |ws[a].db.rows|
    requires forall k :: a <= k < b ==> es[k] != Event.Erase(ws[a].db.rows[i].stage)
    ensures HasLater(ws[b].db.rows, ws[a].db.rows[i].stage, ws[a].db.rows[i].file)
  {
    hide Inv, ValidAreas;
    var r := ws[a].db.rows[i];
    if a == b {
      assert Later(r.file, ws[b].db.rows[i].file);
    } else {
      RowHistory(ws, es, a, b - 1, i);
      var rows := ws[b - 1].db.rows;
      var j :| 0 <= j < |rows| && rows[j].stage == r.stage && Later(r.file, rows[j].file);
      RunStep(ws, es, b - 1);
      RowAfterStep(ws[b - 1], es[b - 1], j);
      var next := ws[b].db.rows;
      var k :| 0 <= k < |next| && next[k].stage == r.stage && Later(rows[j].file, next[k].file);
      assert Later(r.file, next[k].file);
    }
  }

  // ---- Stage timestamps over runs ----

  /** Main result: in every world of a run, a stage's start is the smallest start of its files
      that began, its completion means that every file is final, and creation, start,
      completion and last finish are in this order. */
  lemma TimesInRun(ws: seq<World>, es: seq<Event>, i: nat, id: StageId)
    requires IsRun(ws, es) && i <= |es| && id in ws[i].db.stages
    ensures var t, files := ws[i].db.stages[id], FilesOf(ws[i].db.rows, id);
            && files != []
            && (t.startedAt != 0 ==> AnyBegun(files) && t.startedAt == MinStarted(files) && t.createdAt <= t.startedAt)
            && (t.completedAt != 0 ==> AllFinal(files) && 0 < t.startedAt <= t.completedAt <= MaxFinished(files))
  {
    hide Inv;
    RunKeepsInvariant(ws, es, i);
    TimesAreExact(ws[i].db, ws[i].clock, id);
  }

  lemma StartIsMinimum(rows: seq<Row>, id: StageId, t: Time)
    requires IsFirstStart(rows, id, t)
    ensures AnyBegun(FilesOf(rows, id)) && t == MinStarted(FilesOf(rows, id))
  {
    hide Inv;
    var files := FilesOf(rows, id);
    var i :| 0 <= i < |rows| && rows[i].stage == id && !rows[i].file.state.Submitted? && rows[i].file.startedAt == t;
    RowIsListed(rows, id, i);
    var f :| f in files && !f.state.Submitted? && f.startedAt == MinStarted(files);
    ListedIsRow(rows, id, f);
  }

  lemma CompletionWithinMaximum(rows: seq<Row>, id: StageId, t: Time)
    requires FinishedSince(rows, id, t)
    ensures FilesOf(rows, id) != [] && t <= MaxFinished(FilesOf(rows, id))
  {
    var i :| 0 <= i < |rows| && rows[i].stage == id && t <= rows[i].file.finishedAt;
    RowIsListed(rows, id, i);
  }

  lemma TimesAreExact(db: Db, clock: Time, id: StageId)
    requires Inv(db, clock) && id in db.stages
    ensures var t, files := db.stages[id], FilesOf(db.rows, id);
            && files != []
            && (t.startedAt != 0 ==> AnyBegun(files) && t.startedAt == MinStarted(files) && t.createdAt <= t.startedAt)
            && (t.completedAt != 0 ==> AllFinal(files) && 0 < t.startedAt <= t.completedAt <= MaxFinished(files))
  {
    var t := db.stages[id];
    StageIsOk(db, clock, id);
    StagePresent(db.rows, id);
    FinalReflected(db.rows, id);
    if t.startedAt != 0 { StartIsMinimum(db.rows, id, t.startedAt); }
    if t.completedAt != 0 { CompletionWithinMaximum(db.rows, id, t.completedAt); }
  }

  predicate TimesLater(t: Times, u: Times) {
    && u.createdAt == t.createdAt
    && (t.startedAt != 0 ==> u.startedAt == t.startedAt)
    && (t.completedAt != 0 ==> u.completedAt == t.completedAt)
  }

  /** Main result: as long as a stage is not erased, its timestamps are written at most once. */
  lemma {:induction false} TimesHistory(ws: seq<World>, es: seq<Event>, a: nat, b: nat, id: StageId)
    requires IsRun(ws, es) && a <= b <= |es| && id in ws[a].db.stages
    requires forall k :: a <= k < b ==> es[k] != Event.Erase(id)
    ensures id in ws[b].db.stages && TimesLater(ws[a].db.stages[id], ws[b].db.stages[id])
  {
    hide Inv, ValidAreas;
    if a < b {
      TimesHistory(ws, es, a, b - 1, id);
      RunStep(ws, es, b - 1);
    }
  }

  /** The completion time is the last finishing time. */
  ghost predicate NoneLater(rows: seq<Row>, id: StageId, t: Time) {
    forall i :: 0 <= i < |rows| && rows[i].stage == id ==> rows[i].file.finishedAt <= t
  }

  ghost predicate Completed(w: World, id: StageId) {
    id in w.db.stages && w.db.stages[id].completedAt != 0
  }

  /** Some file of the completed stage finished after its completion time. */
  ghost predicate Overtaken(w: World, id: StageId) {
    Completed(w, id) && !NoneLater(w.db.rows, id, w.db.stages[id].completedAt)
  }

  /** A cancel that goes through, names some file of the completed stage, and comes later than
      the completion. */
  ghost predicate Overtakes(w: World, e: Event, id: StageId) {
    && e.Cancel? && e.id == id && Completed(w, id)
    && e.paths != [] && multiset(e.paths) <= multiset(Recognised(w.db.rows, id))
    && w.db.stages[id].completedAt < e.now
  }

  lemma FinalRowsStay(w: World, e: Event, id: StageId, j: nat)
    requires WorldOk(w) && Enabled(w, e) && Completed(w, id)
    requires !(e.Cancel? && e.id == id)
    requires j < |Apply(w, e).db.rows| && Apply(w, e).db.rows[j].stage == id
    ensures exists i :: 0 <= i < |w.db.rows| && w.db.rows[i].stage == id && w.db.rows[i] == Apply(w, e).db.rows[j]
  {
    hide Inv;
    StageIsOk(w.db, w.clock, id);
    var v := Apply(w, e);
    if e.Stage? {
      assert j < |w.db.rows|;
    } else if e.Erase? {
      if e.id in w.db.stages {
        var i := ErasedFrom(w.db.rows, e.id, j);
      }
    } else {
      assert w.db.rows[j].stage == id && IsFinal(w.db.rows[j].file.state);
      assert v.db.rows[j] == w.db.rows[j];
    }
  }

  lemma NewlyCompleted(w: World, e: Event, id: StageId)
    requires WorldOk(w) && Enabled(w, e) && !Completed(w, id) && Completed(Apply(w, e), id)
    ensures NoneLater(Apply(w, e).db.rows, id, Apply(w, e).db.stages[id].completedAt)
  {
    hide Inv, ValidAreas;
    var v := Apply(w, e);
    assert e.Status? && e.id == id;
    assert v.db.stages[id].completedAt == MaxFinished(FilesOf(v.db.rows, id));
    forall i | 0 <= i < |v.db.rows| && v.db.rows[i].stage == id
      ensures v.db.rows[i].file.finishedAt <= v.db.stages[id].completedAt
    {
      RowIsListed(v.db.rows, id, i);
    }
  }

  lemma CompletedStays(w: World, e: Event, id: StageId)
    requires WorldOk(w) && Enabled(w, e) && Completed(w, id) && e != Event.Erase(id)
    ensures Completed(Apply(w, e), id) && Apply(w, e).db.stages[id].completedAt == w.db.stages[id].completedAt
  {
    hide Inv, ValidAreas;
  }

  /** Cancelling a recognised path gives some row of the stage the time of the cancel. */
  lemma CancelFinishes(db: Db, id: StageId, paths: seq<Path>, now: Time)
    requires id in db.stages && paths != [] && multiset(paths) <= multiset(Recognised(db.rows, id))
    ensures !NoneLater(CancelDb(db, id, paths, now).rows, id, now - 1)
  {
    var b := Logicals(FilesOf(db.rows, id));
    var p := paths[0];
    RecordsWithin(b, [], p);
    assert multiset(paths)[p] >= 1;
    assert p in b;
    var k :| 0 <= k < |b| && b[k] == p;
    ListedIsRow(db.rows, id, FilesOf(db.rows, id)[k]);
    var i :| 0 <= i < |db.rows| && db.rows[i].stage == id && db.rows[i].file == FilesOf(db.rows, id)[k];
    assert CancelDb(db, id, paths, now).rows[i].file.finishedAt == now;
  }

  /** A file that finished too late stays so. */
  lemma OvertakenStays(w: World, e: Event, id: StageId)
    requires WorldOk(w) && Enabled(w, e) && Overtaken(w, id) && e != Event.Erase(id)
    ensures Overtaken(Apply(w, e), id)
  {
    hide Inv, ValidAreas;
    CompletedStays(w, e, id);
    var i :| 0 <= i < |w.db.rows| && w.db.rows[i].stage == id && w.db.rows[i].file.finishedAt > w.db.stages[id].completedAt;
    RowAfterStep(w, e, i);
  }

  /** Nothing but an overtaking cancel makes a file of a completed stage finish too late. */
  lemma OvertakenNow(w: World, e: Event, id: StageId)
    requires WorldOk(w) && Enabled(w, e) && Overtaken(Apply(w, e), id) && !Overtaken(w, id)
    ensures Overtakes(w, e, id)
  {
    hide Inv, ValidAreas;
    var v := Apply(w, e);
    if !Completed(w, id) {
      NewlyCompleted(w, e, id);
      assert false;
    }
    var j :| 0 <= j < |v.db.rows| && v.db.rows[j].stage == id && v.db.rows[j].file.finishedAt > v.db.stages[id].completedAt;
    if !(e.Cancel? && e.id == id) {
      CompletedStays(w, e, id);
      FinalRowsStay(w, e, id, j);
      assert false;
    }
    assert v.db.rows[j] != w.db.rows[j];
  }

  lemma OvertakingStep(w: World, e: Event, id: StageId)
    requires WorldOk(w) && Enabled(w, e) && e != Event.Erase(id)
    ensures Overtaken(Apply(w, e), id) <==> Overtaken(w, id) || Overtakes(w, e, id)
  {
    hide Inv, ValidAreas;
    if Overtaken(w, id) {
      OvertakenStays(w, e, id);
    } else if Overtakes(w, e, id) {
      CompletedStays(w, e, id);
      CancelFinishes(w.db, id, e.paths, e.now);
    } else if Overtaken(Apply(w, e), id) {
      OvertakenNow(w, e, id);
    }
  }

  /** In the first `i` steps an overtaking cancel took place, and the stage was not erased since. */
  ghost predicate WasOvertaken(ws: seq<World>, es: seq<Event>, i: nat, id: StageId)
    requires |ws| == |es| + 1 && i <= |es|
  {
    exists k :: 0 <= k < i && Overtakes(ws[k], es[k], id) && NotErased(es, k + 1, i, id)
  }

  ghost predicate NotErased(es: seq<Event>, a: nat, b: nat, id: StageId)
    requires b <= |es|
  {
    forall m :: a <= m < b ==> es[m] != Event.Erase(id)
  }

  lemma WasOvertakenStep(ws: seq<World>, es: seq<Event>, i: nat, id: StageId)
    requires |ws| == |es| + 1 && i < |es| && es[i] != Event.Erase(id)
    ensures WasOvertaken(ws, es, i + 1, id) <==> WasOvertaken(ws, es, i, id) || Overtakes(ws[i], es[i], id)
  {
    hide Overtakes;
    if WasOvertaken(ws, es, i, id) {
      var k :| 0 <= k < i && Overtakes(ws[k], es[k], id) && NotErased(es, k + 1, i, id);
      assert NotErased(es, k + 1, i + 1, id);
    } else if Overtakes(ws[i], es[i], id) {
      assert NotErased(es, i + 1, i + 1, id);
    }
    if WasOvertaken(ws, es, i + 1, id) {
      var k :| 0 <= k < i + 1 && Overtakes(ws[k], es[k], id) && NotErased(es, k + 1, i + 1, id);
      assert k < i ==> NotErased(es, k + 1, i, id);
    }
  }

  lemma {:induction false} OvertakenIffCancelled(ws: seq<World>, es: seq<Event>, i: nat, id: StageId)
    requires IsRun(ws, es) && i <= |es|
    ensures Overtaken(ws[i], id) <==> Completed(ws[i], id) && WasOvertaken(ws, es, i, id)
  {
    hide Inv, ValidAreas, Overtakes, WasOvertaken, NoneLater;
    if i == 0 {
      assert !Completed(ws[0], id);
    } else if es[i - 1] == Event.Erase(id) {
      RunStep(ws, es, i - 1);
      assert !Completed(ws[i], id);
    } else {
      RunStep(ws, es, i - 1);
      OvertakenIffCancelled(ws, es, i - 1, id);
      OvertakingStep(ws[i - 1], es[i - 1], id);
      WasOvertakenStep(ws, es, i - 1, id);
      if WasOvertaken(ws, es, i - 1, id) { CompletionOrigin(ws, es, i - 1, id); }
    }
  }

  /** A completed stage that was once overtaken and not erased since was completed all along. */
  lemma CompletionOrigin(ws: seq<World>, es: seq<Event>, i: nat, id: StageId)
    requires IsRun(ws, es) && i <= |es| && WasOvertaken(ws, es, i, id)
    ensures Completed(ws[i], id)
  {
    hide Inv, ValidAreas;
    var k :| 0 <= k < i && Overtakes(ws[k], es[k], id) && NotErased(es, k + 1, i, id);
    TimesHistory(ws, es, k, i, id);
  }

  lemma LastFinishReflected(rows: seq<Row>, id: StageId, t: Time)
    requires FilesOf(rows, id) != []
    ensures t < MaxFinished(FilesOf(rows, id)) <==> !NoneLater(rows, id, t)
  {
    var files := FilesOf(rows, id);
    if t < MaxFinished(files) {
      var f :| f in files && f.finishedAt == MaxFinished(files);
      ListedIsRow(rows, id, f);
    }
    if !NoneLater(rows, id, t) {
      var i :| 0 <= i < |rows| && rows[i].stage == id && rows[i].file.finishedAt > t;
      RowIsListed(rows, id, i);
    }
  }

  /** Main result: the completion time of a stage falls behind the last finishing time of its
      files exactly when a cancel named some recognised file of the completed stage, later than
      its completion, and the stage was not erased since. */
  lemma CompletionOvertaken(ws: seq<World>, es: seq<Event>, i: nat, id: StageId)
    requires IsRun(ws, es) && i <= |es| && Completed(ws[i], id)
    ensures FilesOf(ws[i].db.rows, id) != []
    ensures ws[i].db.stages[id].completedAt < MaxFinished(FilesOf(ws[i].db.rows, id))
       <==> exists k :: 0 <= k < i && Overtakes(ws[k], es[k], id) && NotErased(es, k + 1, i, id)
  {
    hide Inv, ValidAreas, Overtakes;
    TimesInRun(ws, es, i, id);
    LastFinishReflected(ws[i].db.rows, id, ws[i].db.stages[id].completedAt);
    OvertakenIffCancelled(ws, es, i, id);
  }

  // A run in which it happens: a stage of one missing file, its status, its cancel.

  const MISSING_PATH := Path(true, [[97]])
  const ASKED := Event.Stage("s", 1, [MISSING_PATH], [1])
  const REFRESHED := Event.Status("s", 1)
  const CANCELLED := Event.Cancel("s", [MISSING_PATH], 2)

  /** A world without files on disk and one stage of one file. */
  function OneFile(config: Config, times: Times, s: State, finish: Time): World
    requires ValidAreas(config.areas)
  {
    World(config, Db(map["s" := times], [Row("s", File(MISSING_PATH, Resolve(config.areas, MISSING_PATH), s, 1, finish))]), map[], finish)
  }

  lemma FilesOfOne(id: StageId, f: File)
    ensures FilesOf([Row(id, f)], id) == [f]
    ensures MaxFinished([f]) == f.finishedAt
    ensures Recognised([Row(id, f)], id) == [f.logical]
  {
    assert FilesOf([Row(id, f)][1..], id) == [];
    assert Logicals([f]) == [f.logical];
    assert RecordsFrom([f.logical][1..], [f.logical]) == [];
    assert f in [f];
  }

  lemma AskedFollows(config: Config)
    requires ValidAreas(config.areas)
    ensures Follows(World(config, Db(map[], []), map[], 1), ASKED, OneFile(config, Times(1, 0, 0), Failed, 1))
  {
    hide Inv, Resolve;
  }

  lemma RefreshedFollows(config: Config)
    requires ValidAreas(config.areas)
    ensures Follows(OneFile(config, Times(1, 0, 0), Failed, 1), REFRESHED, OneFile(config, Times(1, 1, 1), Failed, 1))
  {
    hide Inv, Resolve, Target;
    var w := OneFile(config, Times(1, 0, 0), Failed, 1);
    FilesOfOne("s", w.db.rows[0].file);
    StatusRowAt(w.db.rows, "s", w.disk, 1, 0);
    SettledHasNoTargets(w.db.rows, "s", w.disk);
  }

  lemma CancelledFollows(config: Config)
    requires ValidAreas(config.areas)
    ensures Follows(OneFile(config, Times(1, 1, 1), Failed, 1), CANCELLED, OneFile(config, Times(1, 1, 1), Cancelled, 2))
  {
    hide Inv, Resolve;
    var w := OneFile(config, Times(1, 1, 1), Failed, 1);
    FilesOfOne("s", w.db.rows[0].file);
  }

  /** Born failed at time 1, completed by a status call at time 1, cancelled at time 2. */
  lemma OvertakenRun(config: Config) returns (ws: seq<World>, es: seq<Event>)
    requires ValidAreas(config.areas)
    ensures IsRun(ws, es) && es == [ASKED, REFRESHED, CANCELLED]
    ensures Completed(ws[3], "s") && ws[3].db.stages["s"].completedAt == 1
    ensures FilesOf(ws[3].db.rows, "s") != [] && MaxFinished(FilesOf(ws[3].db.rows, "s")) == 2
  {
    hide ValidAreas, Resolve, Follows;
    es := [ASKED, REFRESHED, CANCELLED];
    ws := [World(config, Db(map[], []), map[], 1),
           OneFile(config, Times(1, 0, 0), Failed, 1),
           OneFile(config, Times(1, 1, 1), Failed, 1),
           OneFile(config, Times(1, 1, 1), Cancelled, 2)];
    AskedFollows(config);
    RefreshedFollows(config);
    CancelledFollows(config);
    FilesOfOne("s", ws[3].db.rows[0].file);
  }

  // ---- Handing out paths ----

  ghost predicate Ready(w: World, p: Path) {
    p in ReadyPaths(w.db.rows)
  }

  /** A submitted row was there before any step that is not a stage call. */
  lemma SubmittedWasThere(w: World, e: Event, j: nat) returns (i: nat)
    requires WorldOk(w) && Enabled(w, e) && !e.Stage?
    requires j < |Apply(w, e).db.rows| && Apply(w, e).db.rows[j].file.state.Submitted?
    ensures i < |w.db.rows| && w.db.rows[i].file == Apply(w, e).db.rows[j].file
  {
    hide Inv;
    if e.Erase? {
      if e.id in w.db.stages {
        i := ErasedFrom(w.db.rows, e.id, j);
      } else {
        i := j;
      }
    } else {
      OtherStepsUpdate(w, e);
      i := j;
      assert Evolves(w.db.rows[j].file, Apply(w, e).db.rows[j].file, Apply(w, e).clock);
    }
  }

  /** Only a stage call makes a path ready. */
  lemma ReadyOnlyByStage(w: World, e: Event, p: Path)
    requires WorldOk(w) && Enabled(w, e) && !Ready(w, p) && Ready(Apply(w, e), p)
    ensures e.Stage?
  {
    hide Inv;
    var next := Apply(w, e).db.rows;
    var j :| 0 <= j < |next| && next[j].file.state == Submitted && next[j].file.physical == p;
    if !e.Stage? {
      var i := SubmittedWasThere(w, e, j);
      assert false;
    }
  }

  /** Only the environment takes a recall attribute away. */
  lemma RecallOnlyLostByEnvironment(w: World, e: Event, p: Path)
    requires WorldOk(w) && Enabled(w, e)
    requires RecallInProgress(w.disk, p) && !RecallInProgress(Apply(w, e).disk, p)
    ensures e.Environment?
  {
  }

  lemma {:induction false} SomeStageCall(ws: seq<World>, es: seq<Event>, a: nat, b: nat, p: Path)
    requires IsRun(ws, es) && a <= b <= |es| && !Ready(ws[a], p) && Ready(ws[b], p)
    ensures exists k :: a <= k < b && es[k].Stage? && !Ready(ws[k], p) && Ready(ws[k + 1], p)
  {
    hide Inv, ValidAreas;
    if Ready(ws[b - 1], p) {
      SomeStageCall(ws, es, a, b - 1, p);
    } else {
      RunStep(ws, es, b - 1);
      ReadyOnlyByStage(ws[b - 1], es[b - 1], p);
    }
  }

  lemma {:induction false} SomeRecallLost(ws: seq<World>, es: seq<Event>, a: nat, b: nat, p: Path)
    requires IsRun(ws, es) && a <= b <= |es|
    requires RecallInProgress(ws[a].disk, p) && !RecallInProgress(ws[b].disk, p)
    ensures exists k :: a <= k < b && es[k].Environment? && RecallInProgress(ws[k].disk, p) && !RecallInProgress(ws[k + 1].disk, p)
  {
    hide Inv, ValidAreas;
    if !RecallInProgress(ws[b - 1].disk, p) {
      SomeRecallLost(ws, es, a, b - 1, p);
    } else {
      RunStep(ws, es, b - 1);
      RecallOnlyLostByEnvironment(ws[b - 1], es[b - 1], p);
    }
  }

  ghost predicate HandsOut(w: World, e: Event, p: Path) {
    e.TakeOver? && p in HandedOut(e.selected, w.disk)
  }

  /** Main result: between two hand-outs of a path, a stage call inserted it anew; and if its
      recall attribute was created, the environment removed the attribute in between. */
  lemma HandedOutTwice(ws: seq<World>, es: seq<Event>, i: nat, j: nat, p: Path)
    requires IsRun(ws, es) && i < j < |es|
    requires HandsOut(ws[i], es[i], p) && HandsOut(ws[j], es[j], p)
    ensures exists k :: i < k < j && es[k].Stage? && !Ready(ws[k], p) && Ready(ws[k + 1], p)
    ensures !ws[i].config.mirrorMode && p !in es[i].refused ==>
              exists k :: i < k < j && es[k].Environment? && RecallInProgress(ws[k].disk, p) && !RecallInProgress(ws[k + 1].disk, p)
  {
    hide Inv, ValidAreas;
    RunStep(ws, es, i);
    RunStep(ws, es, j);
    ReadyAfterwards(ws[i], es[i]);
    assert !Ready(ws[i + 1], p);
    assert p in es[j].selected && Ready(ws[j], p);
    SomeStageCall(ws, es, i + 1, j, p);
    if !ws[i].config.mirrorMode && p !in es[i].refused {
      MarkedDisk(ws[i], es[i].selected, es[i].refused, p);
      NeedsRecallIsStub(Look(ws[j].disk, p));
      SomeRecallLost(ws, es, i + 1, j, p);
    }
  }

  /** What the take-over calls among the events may hand out in all. */
  function Allowance(es: seq<Event>): nat {
    if es == [] then 0
    else Allowance(es[..|es| - 1]) + (var e := es[|es| - 1]; if e.TakeOver? then e.limit else 0)
  }

  /** Nothing becomes ready in a step that is not a stage call. */
  lemma ReadyShrinks(w: World, e: Event)
    requires WorldOk(w) && Enabled(w, e) && !e.Stage?
    ensures |ReadyPaths(Apply(w, e).db.rows)| <= |ReadyPaths(w.db.rows)|
    ensures e.Environment? || e.Tick? ==> Apply(w, e).db == w.db
  {
    hide Inv;
    var before, later := ReadyPaths(w.db.rows), ReadyPaths(Apply(w, e).db.rows);
    assert later <= before by {
      forall p | p in later ensures p in before {
        if !Ready(w, p) { ReadyOnlyByStage(w, e, p); }
      }
    }
    assert |before| == |later| + |before - later|;
  }

  /** Main result: while nothing is staged, take-over calls leave at most the ready paths beyond
      their allowance, whatever else happens; and exactly those if no stage is asked for,
      cancelled or erased.  So k calls for n paths each drain up to k n paths. */
  lemma {:induction false} TakeOverDrains(ws: seq<World>, es: seq<Event>, a: nat, b: nat)
    requires IsRun(ws, es) && a <= b <= |es|
    requires forall k :: a <= k < b ==> !es[k].Stage?
    ensures var left := Monus(|ReadyPaths(ws[a].db.rows)|, Allowance(es[a..b]));
            && |ReadyPaths(ws[b].db.rows)| <= left
            && ((forall k :: a <= k < b ==> es[k].TakeOver? || es[k].Environment? || es[k].Tick?)
                ==> |ReadyPaths(ws[b].db.rows)| == left)
  {
    hide Inv, ValidAreas, ReadyPaths, Follows, Initial;
    if a < b {
      TakeOverDrains(ws, es, a, b - 1);
      RunStep(ws, es, b - 1);
      ReadyShrinks(ws[b - 1], es[b - 1]);
      if es[b - 1].TakeOver? { ReadyCountDrops(ws[b - 1], es[b - 1]); }
      assert es[a..b][..b - a - 1] == es[a..b - 1];
    }
  }

  /** How many of the events are take-over calls. */
  function Calls(es: seq<Event>): nat {
    if es == [] then 0
    else Calls(es[..|es| - 1]) + if es[|es| - 1].TakeOver? then 1 else 0
  }

  lemma {:induction false} UniformAllowance(es: seq<Event>, n: nat)
    requires forall k :: 0 <= k < |es| && es[k].TakeOver? ==> es[k].limit == n
    ensures Allowance(es) == n * Calls(es)
  {
    if es != [] {
      UniformAllowance(es[..|es| - 1], n);
      assert n * (Calls(es[..|es| - 1]) + 1) == n * Calls(es[..|es| - 1]) + n;
    }
  }

  /** Main result: with only storage and clock changing in between, calls that take over up to n
      paths each have drained the ready paths exactly when there were at least ready / n of
      them, rounded up. */
  lemma DrainedAfter(ws: seq<World>, es: seq<Event>, a: nat, b: nat, n: nat)
    requires IsRun(ws, es) && a <= b <= |es| && 1 <= n
    requires forall k :: a <= k < b ==> es[k].TakeOver? || es[k].Environment? || es[k].Tick?
    requires forall k :: a <= k < b && es[k].TakeOver? ==> es[k].limit == n
    ensures ReadyPaths(ws[b].db.rows) == {} <==> (|ReadyPaths(ws[a].db.rows)| + n - 1) / n <= Calls(es[a..b])
  {
    hide Inv, ValidAreas, ReadyPaths, Follows, Initial;
    TakeOverDrains(ws, es, a, b);
    UniformAllowance(es[a..b], n);
    RoundedUp(|ReadyPaths(ws[a].db.rows)|, n, Calls(es[a..b]));
  }

  lemma RoundedUp(ready: nat, n: nat, calls: nat)
    requires 1 <= n
    ensures (ready + n - 1) / n <= calls <==> ready <= n * calls
  {
    var q := (ready + n - 1) / n;
    assert n * q <= ready + n - 1 < n * q + n;
    if q <= calls {
      assert n * q <= n * calls;
    } else {
      assert n * (calls + 1) <= n * q;
    }
  }
}
