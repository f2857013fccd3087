// The recalls in progress over all stages: every incomplete stage is visited by a status
// call, in no particular order, and each visit may change the files of other stages.
module InProgressLaws {
  import opened Options
  import opened Paths
  import opened PathLists
  import opened Files
  import opened Storage
  import opened Tables
  import opened Invariants
  import opened World
  import opened StatusLaws
  import opened Resolver

  /** The database after a status call on each of the stages, from left to right. */
  ghost function VisitAll(db: Db, disk: Disk, ids: seq<StageId>, times: seq<Time>): Db
    requires |ids| <= |times|
  {
    if ids == [] then db
    else
      var n := |ids| - 1;
      StatusDb(VisitAll(db, disk, ids[..n], times), ids[n], disk, times[n])
  }

  ghost predicate Readings(clock: Time, times: seq<Time>) {
    && (forall i :: 0 <= i < |times| ==> clock <= times[i])
    && (forall i, j :: 0 <= i < j < |times| ==> times[i] <= times[j])
  }

  function LastReading(clock: Time, ids: seq<StageId>, times: seq<Time>): Time
    requires |ids| <= |times|
  {
    if ids == [] then clock else times[|ids| - 1]
  }

  lemma {:induction false} VisitAllOk(db: Db, disk: Disk, clock: Time, ids: seq<StageId>, times: seq<Time>)
    requires Inv(db, clock) && |ids| <= |times| && Readings(clock, times)
    ensures Inv(VisitAll(db, disk, ids, times), LastReading(clock, ids, times))
    ensures VisitAll(db, disk, ids, times).stages.Keys == db.stages.Keys
    ensures |VisitAll(db, disk, ids, times).rows| == |db.rows|
  {
    hide Inv;
    if ids != [] {
      var n := |ids| - 1;
      VisitAllOk(db, disk, clock, ids[..n], times);
      StatusKeepsInv(VisitAll(db, disk, ids[..n], times), ids[n], disk, LastReading(clock, ids[..n], times), times[n]);
    }
  }

  /** Visiting stages is a run of status calls of the state machine. */
  lemma VisitIsStatusCall(w: World, ids: seq<StageId>, times: seq<Time>)
    requires WorldOk(w) && 1 <= |ids| <= |times| && Readings(w.clock, times)
    ensures var n := |ids| - 1;
            var v := w.(db := VisitAll(w.db, w.disk, ids[..n], times), clock := LastReading(w.clock, ids[..n], times));
            var e := Event.Status(ids[n], times[n]);
            && WorldOk(v) && Enabled(v, e)
            && Apply(v, e) == w.(db := VisitAll(w.db, w.disk, ids, times), clock := LastReading(w.clock, ids, times))
  {
    hide Inv, ValidAreas;
    VisitAllOk(w.db, w.disk, w.clock, ids[..|ids| - 1], times);
  }

  /** What visits do to a row: final rows never change; while its recall is in progress a
      row is not finished, and it is started once its own stage is visited; without a recall
      no row is started, and no row is left started by the visit of its own stage. */
  predicate RowVisited(r: Row, q: Row, disk: Disk, own: bool) {
    && q.stage == r.stage && q.file.physical == r.file.physical
    && (IsFinal(r.file.state) ==> q == r)
    && (if RecallInProgress(disk, r.file.physical)
        then !IsFinal(r.file.state) ==>
               !IsFinal(q.file.state) && (r.file.state.Started? || own ==> q.file.state.Started?)
        else q.file.state.Started? ==> r.file.state.Started? && !own)
  }

  lemma TargetFollowsRecall(rows: seq<Row>, id: StageId, disk: Disk, p: Path)
    requires p in StatusTargets(rows, id, disk)
    ensures if RecallInProgress(disk, p) then StatusTargets(rows, id, disk)[p].Started?
            else IsFinal(StatusTargets(rows, id, disk)[p])
  {
    assert Target(rows, id, disk, p).Some?;
  }

  lemma OtherStageVisited(rows: seq<Row>, id: StageId, disk: Disk, now: Time, i: nat)
    requires i < |rows| && rows[i].stage != id
    ensures RowVisited(rows[i], StatusRows(rows, id, disk, now)[i], disk, false)
  {
    var p, targets := rows[i].file.physical, StatusTargets(rows, id, disk);
    assert StatusRows(rows, id, disk, now)[i] == rows[i].(file := RetargetFile(rows[i].file, targets, now));
    if p in targets {
      TargetFollowsRecall(rows, id, disk, p);
    }
  }

  lemma VisitedRow(db: Db, id: StageId, disk: Disk, clock: Time, now: Time, i: nat)
    requires Inv(db, clock) && clock <= now && id in db.stages && i < |db.rows|
    ensures RowVisited(db.rows[i], StatusDb(db, id, disk, now).rows[i], disk, db.rows[i].stage == id)
  {
    hide Inv;
    if db.rows[i].stage == id {
      WriteBackMatchesReport(db, disk, clock, now, i);
    } else {
      OtherStageVisited(db.rows, id, disk, now, i);
    }
  }

  lemma VisitsCompose(r: Row, q: Row, s: Row, disk: Disk, a: bool, b: bool)
    requires RowVisited(r, q, disk, a) && RowVisited(q, s, disk, b)
    ensures RowVisited(r, s, disk, a || b)
  {
  }

  /** The last visit after some others. */
  lemma LastVisit(db: Db, disk: Disk, clock: Time, some: seq<StageId>, last: StageId, times: seq<Time>, i: nat)
    requires Inv(db, clock) && |some| < |times| && Readings(clock, times)
    requires last in db.stages && i < |db.rows|
    requires |VisitAll(db, disk, some, times).rows| == |db.rows|
    requires RowVisited(db.rows[i], VisitAll(db, disk, some, times).rows[i], disk, db.rows[i].stage in some)
    ensures var v := StatusDb(VisitAll(db, disk, some, times), last, disk, times[|some|]);
            && |v.rows| == |db.rows|
            && RowVisited(db.rows[i], v.rows[i], disk, db.rows[i].stage in some || db.rows[i].stage == last)
  {
    hide Inv;
    var r, v := db.rows[i], VisitAll(db, disk, some, times);
    VisitAllOk(db, disk, clock, some, times);
    VisitedRow(v, last, disk, LastReading(clock, some, times), times[|some|], i);
    VisitsCompose(r, v.rows[i], StatusDb(v, last, disk, times[|some|]).rows[i], disk, r.stage in some, r.stage == last);
  }

  /** The visits of any list of stages, seen from one row. */
  lemma {:induction false} RowAfterVisits(db: Db, disk: Disk, clock: Time, ids: seq<StageId>, times: seq<Time>, i: nat)
    requires Inv(db, clock) && |ids| <= |times| && Readings(clock, times)
    requires forall k :: 0 <= k < |ids| ==> ids[k] in db.stages
    requires i < |db.rows|
    ensures |VisitAll(db, disk, ids, times).rows| == |db.rows|
    ensures RowVisited(db.rows[i], VisitAll(db, disk, ids, times).rows[i], disk, db.rows[i].stage in ids)
  {
    hide Inv;
    if ids != [] {
      var n := |ids| - 1;
      var some, last := ids[..n], ids[n];
      RowAfterVisits(db, disk, clock, some, times, i);
      LastVisit(db, disk, clock, some, last, times, i);
      assert ids == some + [last];
      assert db.rows[i].stage in ids <==> db.rows[i].stage in some || db.rows[i].stage == last;
    }
  }

  /** A physical path for which a stage waits. */
  ghost predicate Awaited(rows: seq<Row>, id: StageId, disk: Disk, p: Path) {
    && RecallInProgress(disk, p)
    && exists i :: 0 <= i < |rows| && rows[i].stage == id && rows[i].file.physical == p && !IsFinal(rows[i].file.state)
  }

  ghost predicate AwaitedByAny(rows: seq<Row>, disk: Disk, p: Path) {
    && RecallInProgress(disk, p)
    && exists i :: 0 <= i < |rows| && rows[i].file.physical == p && !IsFinal(rows[i].file.state)
  }

  lemma VisitedRowStarted(r: Row, q: Row, disk: Disk)
    requires RowVisited(r, q, disk, true)
    ensures q.file.state.Started? <==> !IsFinal(r.file.state) && RecallInProgress(disk, r.file.physical)
  {
  }

  ghost predicate StartedIffAwaited(r: Row, q: Row, disk: Disk) {
    && q.stage == r.stage && q.file.physical == r.file.physical
    && (q.file.state.Started? <==> !IsFinal(r.file.state) && RecallInProgress(disk, r.file.physical))
  }

  /** Right after the visit of a stage, its started files are the ones it waited for at the
      beginning, whatever the earlier visits changed. */
  lemma StartedWhenVisited(db: Db, disk: Disk, clock: Time, ids: seq<StageId>, times: seq<Time>, p: Path)
    requires Inv(db, clock) && 1 <= |ids| <= |times| && Readings(clock, times)
    requires forall k :: 0 <= k < |ids| ==> ids[k] in db.stages
    ensures var id := ids[|ids| - 1];
            HasRow(VisitAll(db, disk, ids, times).rows, id, p, Started) <==> Awaited(db.rows, id, disk, p)
  {
    hide Inv;
    var id, next := ids[|ids| - 1], VisitAll(db, disk, ids, times).rows;
    VisitAllOk(db, disk, clock, ids, times);
    forall i | 0 <= i < |db.rows|
      ensures next[i].stage == db.rows[i].stage
      ensures next[i].stage == id ==> StartedIffAwaited(db.rows[i], next[i], disk)
    {
      RowAfterVisits(db, disk, clock, ids, times, i);
      assert id in ids;
      if db.rows[i].stage == id { VisitedRowStarted(db.rows[i], next[i], disk); }
    }
    StartedRowsAwaited(db.rows, next, id, disk, p);
  }

  lemma StartedRowsAwaited(rows: seq<Row>, next: seq<Row>, id: StageId, disk: Disk, p: Path)
    requires |next| == |rows|
    requires forall i :: 0 <= i < |rows| ==> next[i].stage == rows[i].stage && (next[i].stage == id ==> StartedIffAwaited(rows[i], next[i], disk))
    ensures HasRow(next, id, p, Started) <==> Awaited(rows, id, disk, p)
  {
    if HasRow(next, id, p, Started) {
      var i :| 0 <= i < |next| && next[i].stage == id && next[i].file.physical == p && next[i].file.state == Started;
      assert StartedIffAwaited(rows[i], next[i], disk);
    }
    if Awaited(rows, id, disk, p) {
      var i :| 0 <= i < |rows| && rows[i].stage == id && rows[i].file.physical == p && !IsFinal(rows[i].file.state);
      assert StartedIffAwaited(rows[i], next[i], disk);
    }
  }

  ghost predicate Incomplete(db: Db, ids: seq<StageId>) {
    forall id :: id in ids <==> id in db.stages && db.stages[id].completedAt == 0
  }

  lemma NotFinalIsIncomplete(db: Db, clock: Time, i: nat)
    requires Inv(db, clock) && i < |db.rows| && !IsFinal(db.rows[i].file.state)
    ensures db.rows[i].stage in db.stages && db.stages[db.rows[i].stage].completedAt == 0
  {
    RowIsOk(db, clock, i);
    StageIsOk(db, clock, db.rows[i].stage);
  }

  /** Main result: after all incomplete stages were visited, in whatever order, a row is
      started if and only if at the beginning it was not final and its recall in progress. */
  lemma StartedAfterAllVisits(db: Db, disk: Disk, clock: Time, ids: seq<StageId>, times: seq<Time>, i: nat)
    requires Inv(db, clock) && |ids| <= |times| && Readings(clock, times) && Incomplete(db, ids)
    requires i < |db.rows|
    ensures |VisitAll(db, disk, ids, times).rows| == |db.rows|
    ensures StartedIffAwaited(db.rows[i], VisitAll(db, disk, ids, times).rows[i], disk)
  {
    hide Inv;
    RowAfterVisits(db, disk, clock, ids, times, i);
    if !IsFinal(db.rows[i].file.state) {
      NotFinalIsIncomplete(db, clock, i);
      VisitedRowStarted(db.rows[i], VisitAll(db, disk, ids, times).rows[i], disk);
    }
  }

  /** Main result: two visiting orders, with different clock readings, start the same rows. */
  lemma VisitingOrderIsIrrelevant(db: Db, disk: Disk, clock: Time, a: seq<StageId>, b: seq<StageId>, s: seq<Time>, t: seq<Time>, i: nat)
    requires Inv(db, clock) && Incomplete(db, a) && Incomplete(db, b)
    requires |a| <= |s| && |b| <= |t| && Readings(clock, s) && Readings(clock, t)
    requires i < |db.rows|
    ensures |VisitAll(db, disk, a, s).rows| == |VisitAll(db, disk, b, t).rows| == |db.rows|
    ensures VisitAll(db, disk, a, s).rows[i].file.state.Started? <==> VisitAll(db, disk, b, t).rows[i].file.state.Started?
  {
    hide Inv;
    StartedAfterAllVisits(db, disk, clock, a, s, i);
    StartedAfterAllVisits(db, disk, clock, b, t, i);
  }

  /** The target of the first visited stage that has one for the path. */
  ghost function FirstTarget(rows: seq<Row>, ids: seq<StageId>, disk: Disk, p: Path): Option<State> {
    if ids == [] then None
    else FirstOf(FirstTarget(rows, ids[..|ids| - 1], disk, p), Target(rows, ids[|ids| - 1], disk, p))
  }

  /** Main result: over any list of visits, the first stage that moves a path decides for all
      its rows, in whatever stage; later visits leave the path alone. */
  lemma {:induction false} FirstStageDecides(db: Db, disk: Disk, clock: Time, ids: seq<StageId>, times: seq<Time>, p: Path)
    requires Inv(db, clock) && |ids| <= |times| && Readings(clock, times)
    requires forall k :: 0 <= k < |ids| ==> ids[k] in db.stages
    ensures var t := FirstTarget(db.rows, ids, disk, p);
            MovedTogether(db.rows, VisitAll(db, disk, ids, times).rows, p, t) && Proper(t, Look(disk, p))
  {
    hide Inv, Target, StatusRows;
    if ids != [] {
      var n := |ids| - 1;
      var some, id := ids[..n], ids[n];
      var mid := VisitAll(db, disk, some, times);
      FirstStageDecides(db, disk, clock, some, times, p);
      VisitAllOk(db, disk, clock, some, times);
      TargetAfter(db.rows, mid.rows, p, FirstTarget(db.rows, some, disk, p), id, disk);
      StatusMovesTogether(mid.rows, id, disk, times[n], p);
    }
  }

  lemma {:induction false} TargetIsSome(rows: seq<Row>, ids: seq<StageId>, disk: Disk, p: Path)
    ensures var t := FirstTarget(rows, ids, disk, p);
            if t.None? then forall k :: 0 <= k < |ids| ==> Target(rows, ids[k], disk, p).None?
            else exists k :: 0 <= k < |ids| && Target(rows, ids[k], disk, p) == t
  {
    hide Target;
    if ids != [] {
      TargetIsSome(rows, ids[..|ids| - 1], disk, p);
    }
  }

  /** Main result: two orders of visits leave a row in different states exactly when it is not
      final and the stages that decide are opposed about its path, which the storage leaves
      undecided; in particular whenever the stages visited first are opposed about it. */
  lemma OrdersDisagree(db: Db, disk: Disk, clock: Time, a: seq<StageId>, b: seq<StageId>, s: seq<Time>, t: seq<Time>, i: nat)
    requires Inv(db, clock) && Incomplete(db, a) && Incomplete(db, b)
    requires |a| <= |s| && |b| <= |t| && Readings(clock, s) && Readings(clock, t)
    requires i < |db.rows|
    ensures |VisitAll(db, disk, a, s).rows| == |VisitAll(db, disk, b, t).rows| == |db.rows|
    ensures var p, f := db.rows[i].file.physical, db.rows[i].file;
            var x, y := VisitAll(db, disk, a, s).rows[i].file.state, VisitAll(db, disk, b, t).rows[i].file.state;
            var parted := FirstTarget(db.rows, a, disk, p) != FirstTarget(db.rows, b, disk, p);
            && (x != y <==> !IsFinal(f.state) && parted)
            && (parted ==> Undecided(Look(disk, p)) && SomeOpposed(db.rows, a, b, p))
            && (Undecided(Look(disk, p)) && a != [] && b != [] && Opposed(db.rows, a[0], b[0], p) ==> parted)
  {
    hide Inv, Target, VisitAll, Look, SeenAsStub;
    var p := db.rows[i].file.physical;
    FirstStageDecides(db, disk, clock, a, s, p);
    FirstStageDecides(db, disk, clock, b, t, p);
    TargetsOfOrders(db, disk, clock, a, b, p);
    if a != [] && b != [] {
      NotBothStates(db, clock, a[0], p);
      NotBothStates(db, clock, b[0], p);
      TargetsPart(db.rows, a[0], b[0], disk, p);
      if Target(db.rows, a[0], disk, p).Some? { HeadDecides(db.rows, a, disk, p); }
      if Target(db.rows, b[0], disk, p).Some? { HeadDecides(db.rows, b, disk, p); }
    }
  }

  ghost predicate SomeOpposed(rows: seq<Row>, a: seq<StageId>, b: seq<StageId>, p: Path) {
    exists k, l :: 0 <= k < |a| && 0 <= l < |b| && Opposed(rows, a[k], b[l], p)
  }

  lemma {:induction false} HeadDecides(rows: seq<Row>, ids: seq<StageId>, disk: Disk, p: Path)
    requires ids != [] && Target(rows, ids[0], disk, p).Some?
    ensures FirstTarget(rows, ids, disk, p) == Target(rows, ids[0], disk, p)
  {
    hide Target;
    if |ids| > 1 {
      HeadDecides(rows, ids[..|ids| - 1], disk, p);
    }
  }

  /** If one order finds a target for the path, so does any order that visits these stages. */
  lemma TargetCarriesOver(rows: seq<Row>, a: seq<StageId>, b: seq<StageId>, disk: Disk, p: Path)
    requires forall id :: id in a ==> id in b
    requires FirstTarget(rows, a, disk, p).Some?
    ensures FirstTarget(rows, b, disk, p).Some?
  {
    hide Target;
    TargetIsSome(rows, a, disk, p);
    TargetIsSome(rows, b, disk, p);
    var k :| 0 <= k < |a| && Target(rows, a[k], disk, p).Some?;
    assert a[k] in b;
    var l :| 0 <= l < |b| && b[l] == a[k];
    assert Target(rows, b[l], disk, p).Some?;
  }

  /** Two orders visit the same stages, so both find a first target or none does. */
  lemma TargetsOfOrders(db: Db, disk: Disk, clock: Time, a: seq<StageId>, b: seq<StageId>, p: Path)
    requires Inv(db, clock) && Incomplete(db, a) && Incomplete(db, b)
    ensures var t, u := FirstTarget(db.rows, a, disk, p), FirstTarget(db.rows, b, disk, p);
            && (t.Some? <==> u.Some?)
            && (t != u ==> Undecided(Look(disk, p)) && SomeOpposed(db.rows, a, b, p))
  {
    hide Inv, Target;
    TargetIsSome(db.rows, a, disk, p);
    TargetIsSome(db.rows, b, disk, p);
    var t, u := FirstTarget(db.rows, a, disk, p), FirstTarget(db.rows, b, disk, p);
    if t.Some? { TargetCarriesOver(db.rows, a, b, disk, p); }
    if u.Some? { TargetCarriesOver(db.rows, b, a, disk, p); }
    if t.Some? && u.Some? {
      var k :| 0 <= k < |a| && Target(db.rows, a[k], disk, p) == t;
      var l :| 0 <= l < |b| && Target(db.rows, b[l], disk, p) == u;
      NotBothStates(db, clock, a[k], p);
      NotBothStates(db, clock, b[l], p);
      TargetsPart(db.rows, a[k], b[l], disk, p);
    }
  }

  /** Main result: the paths with a started row at the end are the paths awaited at the
      beginning, whichever stage awaits them. */
  lemma StartedPathsAreAwaited(db: Db, disk: Disk, clock: Time, ids: seq<StageId>, times: seq<Time>, p: Path)
    requires Inv(db, clock) && |ids| <= |times| && Readings(clock, times) && Incomplete(db, ids)
    ensures p in PathsIn(VisitAll(db, disk, ids, times).rows, Started) <==> AwaitedByAny(db.rows, disk, p)
  {
    hide Inv;
    var next := VisitAll(db, disk, ids, times).rows;
    VisitAllOk(db, disk, clock, ids, times);
    forall i | 0 <= i < |next| ensures StartedIffAwaited(db.rows[i], next[i], disk) {
      StartedAfterAllVisits(db, disk, clock, ids, times, i);
    }
    StartedPathIffAwaited(db.rows, next, disk, p);
  }

  lemma StartedPathIffAwaited(rows: seq<Row>, next: seq<Row>, disk: Disk, p: Path)
    requires |next| == |rows|
    requires forall i :: 0 <= i < |next| ==> StartedIffAwaited(rows[i], next[i], disk)
    ensures p in PathsIn(next, Started) <==> AwaitedByAny(rows, disk, p)
  {
    if p in PathsIn(next, Started) {
      var i :| 0 <= i < |next| && next[i].file.state == Started && next[i].file.physical == p;
      assert StartedIffAwaited(rows[i], next[i], disk);
    }
    if AwaitedByAny(rows, disk, p) {
      var i :| 0 <= i < |rows| && rows[i].file.physical == p && !IsFinal(rows[i].file.state);
      assert StartedIffAwaited(rows[i], next[i], disk);
    }
  }

  lemma AwaitedBySomeVisited(db: Db, disk: Disk, clock: Time, ids: seq<StageId>, p: Path)
    requires Inv(db, clock) && Incomplete(db, ids)
    ensures AwaitedByAny(db.rows, disk, p) <==> exists k :: 0 <= k < |ids| && Awaited(db.rows, ids[k], disk, p)
  {
    hide Inv;
    if AwaitedByAny(db.rows, disk, p) {
      var i :| 0 <= i < |db.rows| && db.rows[i].file.physical == p && !IsFinal(db.rows[i].file.state);
      NotFinalIsIncomplete(db, clock, i);
      var id := db.rows[i].stage;
      assert Awaited(db.rows, id, disk, p);
      assert id in ids;
    }
  }
}
