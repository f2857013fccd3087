// What holds of the database between any two calls, and why every kind of update keeps it.
module Invariants {
  import opened Paths
  import opened Files
  import opened Tables

  // ---- The invariant ----

  /** Life cycle of a row: submitted rows have no times, started rows a start,
      final rows a start and an end in order; nothing lies in the future. */
  predicate LifeCycle(f: File, clock: Time) {
    match f.state
    case Submitted => f.startedAt == 0 && f.finishedAt == 0
    case Started => 0 < f.startedAt <= clock && f.finishedAt == 0
    case _ => 0 < f.startedAt <= f.finishedAt <= clock
  }

  /** Rows of one stage that share a physical path and are not final are in the same state. */
  ghost predicate OneStatePerPath(rows: seq<Row>) {
    forall i, j :: 0 <= i < |rows| && 0 <= j < |rows|
                   && rows[i].stage == rows[j].stage && rows[i].file.physical == rows[j].file.physical
                   && !IsFinal(rows[i].file.state) && !IsFinal(rows[j].file.state)
                   ==> rows[i].file.state == rows[j].file.state
  }

  ghost predicate RowOk(r: Row, stages: map<StageId, Times>, clock: Time) {
    && r.stage in stages
    && WellFormed(r.file.logical)
    && LifeCycle(r.file, clock)
    && (!r.file.state.Submitted? ==> stages[r.stage].createdAt <= r.file.startedAt)
  }

  ghost predicate RowsOk(db: Db, clock: Time) {
    forall i :: 0 <= i < |db.rows| ==> RowOk(db.rows[i], db.stages, clock)
  }

  /** `t` is exactly the smallest starting time of the stage's files that began. */
  ghost predicate IsFirstStart(rows: seq<Row>, id: StageId, t: Time) {
    && (exists i :: 0 <= i < |rows| && rows[i].stage == id && !rows[i].file.state.Submitted? && rows[i].file.startedAt == t)
    && (forall i :: 0 <= i < |rows| && rows[i].stage == id && !rows[i].file.state.Submitted? ==> t <= rows[i].file.startedAt)
  }

  ghost predicate FinishedSince(rows: seq<Row>, id: StageId, t: Time) {
    exists i :: 0 <= i < |rows| && rows[i].stage == id && t <= rows[i].file.finishedAt
  }

  ghost predicate StageFinal(rows: seq<Row>, id: StageId) {
    forall i :: 0 <= i < |rows| && rows[i].stage == id ==> IsFinal(rows[i].file.state)
  }

  ghost predicate HasFiles(rows: seq<Row>, id: StageId) {
    exists i :: 0 <= i < |rows| && rows[i].stage == id
  }

  ghost predicate StageOk(rows: seq<Row>, id: StageId, t: Times, clock: Time) {
    && HasFiles(rows, id)
    && 0 < t.createdAt <= clock
    && (t.startedAt != 0 ==> t.createdAt <= t.startedAt && IsFirstStart(rows, id, t.startedAt))
    && (t.completedAt != 0 ==>
          && t.startedAt != 0
          && t.startedAt <= t.completedAt
          && StageFinal(rows, id)
          && FinishedSince(rows, id, t.completedAt))
  }

  ghost predicate Inv(db: Db, clock: Time) {
    && 0 < clock
    && UniqueKeys(db.rows)
    && OneStatePerPath(db.rows)
    && RowsOk(db, clock)
    && (forall id :: id in db.stages ==> StageOk(db.rows, id, db.stages[id], clock))
  }

  lemma RowIsOk(db: Db, clock: Time, i: nat)
    requires Inv(db, clock) && i < |db.rows|
    ensures 0 < clock && RowOk(db.rows[i], db.stages, clock)
  {
  }

  lemma StageIsOk(db: Db, clock: Time, id: StageId)
    requires Inv(db, clock) && id in db.stages
    ensures StageOk(db.rows, id, db.stages[id], clock)
  {
  }

  // ---- How rows change ----

  /** A row stays as it is, starts, or becomes final; it never goes back to submitted,
      its start is written once, and its end is the time of the change. */
  predicate Evolves(f: File, g: File, now: Time) {
    || g == f
    || (&& g.logical == f.logical && g.physical == f.physical
        && g.startedAt == (if f.state.Submitted? then now else f.startedAt)
        && (if IsFinal(g.state) then g.finishedAt == now
            else g.state.Started? && f.state.Submitted? && g.finishedAt == f.finishedAt))
  }

  ghost predicate RowsEvolve(rows: seq<Row>, next: seq<Row>, now: Time) {
    |rows| == |next| && forall i :: 0 <= i < |rows| ==>
      next[i].stage == rows[i].stage && Evolves(rows[i].file, next[i].file, now)
  }

  lemma StageOkEvolves(rows: seq<Row>, next: seq<Row>, id: StageId, t: Times, clock: Time, now: Time)
    requires StageOk(rows, id, t, clock) && clock <= now
    requires forall i :: 0 <= i < |rows| && rows[i].stage == id ==> LifeCycle(rows[i].file, clock)
    requires RowsEvolve(rows, next, now)
    ensures StageOk(next, id, t, now)
  {
    var k :| 0 <= k < |rows| && rows[k].stage == id;
    assert next[k].stage == id;
    if t.startedAt != 0 {
      var i :| 0 <= i < |rows| && rows[i].stage == id && !rows[i].file.state.Submitted? && rows[i].file.startedAt == t.startedAt;
      assert next[i].file.startedAt == t.startedAt;
    }
    if t.completedAt != 0 {
      var i :| 0 <= i < |rows| && rows[i].stage == id && t.completedAt <= rows[i].file.finishedAt;
      assert t.completedAt <= next[i].file.finishedAt;
    }
  }

  lemma RowsOkEvolve(db: Db, next: seq<Row>, clock: Time, now: Time)
    requires Inv(db, clock) && clock <= now
    requires RowsEvolve(db.rows, next, now)
    ensures RowsOk(Db(db.stages, next), now)
  {
    hide Inv;
    forall i | 0 <= i < |next| ensures RowOk(next[i], db.stages, now) {
      RowIsOk(db, clock, i);
      StageIsOk(db, clock, next[i].stage);
    }
  }

  lemma StageStaysOk(db: Db, next: seq<Row>, clock: Time, now: Time, id: StageId)
    requires Inv(db, clock) && clock <= now && id in db.stages
    requires RowsEvolve(db.rows, next, now)
    ensures StageOk(next, id, db.stages[id], now)
  {
    hide Inv;
    StageIsOk(db, clock, id);
    forall i | 0 <= i < |db.rows| && db.rows[i].stage == id ensures LifeCycle(db.rows[i].file, clock) {
      RowIsOk(db, clock, i);
    }
    StageOkEvolves(db.rows, next, id, db.stages[id], clock, now);
  }

  lemma KeysStayUnique(rows: seq<Row>, next: seq<Row>, now: Time)
    requires UniqueKeys(rows) && RowsEvolve(rows, next, now)
    ensures UniqueKeys(next)
  {
    forall i | 0 <= i < |rows| ensures next[i].stage == rows[i].stage && next[i].file.logical == rows[i].file.logical {
      assert Evolves(rows[i].file, next[i].file, now);
    }
  }

  lemma InvEvolves(db: Db, next: seq<Row>, clock: Time, now: Time)
    requires Inv(db, clock) && clock <= now
    requires RowsEvolve(db.rows, next, now)
    requires OneStatePerPath(next)
    ensures Inv(Db(db.stages, next), now)
  {
    hide RowsEvolve, StageOk, RowsOk, UniqueKeys, OneStatePerPath;
    RowsOkEvolve(db, next, clock, now);
    forall id | id in db.stages ensures StageOk(next, id, db.stages[id], now) {
      StageStaysOk(db, next, clock, now, id);
    }
    KeysStayUnique(db.rows, next, now);
  }

  // ---- Each kind of update evolves rows and keeps one state per path ----

  lemma RetargetedEvolves(f: File, targets: map<Path, State>, clock: Time, now: Time)
    requires LifeCycle(f, clock) && clock <= now
    ensures Evolves(f, RetargetFile(f, targets, now), now)
  {
  }

  /** Moving all rows of a path together keeps the states of one stage together. */
  lemma RetargetedTogether(rows: seq<Row>, targets: map<Path, State>, now: Time)
    requires OneStatePerPath(rows)
    ensures OneStatePerPath(Retarget(rows, targets, now))
  {
    var next := Retarget(rows, targets, now);
    forall i, j | 0 <= i < |next| && 0 <= j < |next|
                  && next[i].stage == next[j].stage && next[i].file.physical == next[j].file.physical
                  && !IsFinal(next[i].file.state) && !IsFinal(next[j].file.state)
      ensures next[i].file.state == next[j].file.state
    {
      assert rows[i].stage == rows[j].stage && rows[i].file.physical == rows[j].file.physical;
    }
  }

  lemma RetargetEvolves(db: Db, targets: map<Path, State>, clock: Time, now: Time)
    requires Inv(db, clock) && clock <= now
    ensures RowsEvolve(db.rows, Retarget(db.rows, targets, now), now)
    ensures OneStatePerPath(Retarget(db.rows, targets, now))
  {
    hide RetargetFile;
    var next := Retarget(db.rows, targets, now);
    forall i | 0 <= i < |next| ensures next[i].stage == db.rows[i].stage && Evolves(db.rows[i].file, next[i].file, now) {
      RowIsOk(db, clock, i);
      RetargetedEvolves(db.rows[i].file, targets, clock, now);
    }
    RetargetedTogether(db.rows, targets, now);
  }

  lemma OverwriteEvolves(db: Db, id: StageId, paths: seq<Path>, s: State, clock: Time, now: Time)
    requires Inv(db, clock) && clock <= now && IsFinal(s)
    ensures RowsEvolve(db.rows, Overwrite(db.rows, id, paths, s, now), now)
    ensures OneStatePerPath(Overwrite(db.rows, id, paths, s, now))
  {
    var next := Overwrite(db.rows, id, paths, s, now);
    forall i | 0 <= i < |next| ensures next[i].stage == db.rows[i].stage && Evolves(db.rows[i].file, next[i].file, now) {
      assert RowOk(db.rows[i], db.stages, clock);
    }
    forall i, j | 0 <= i < |next| && 0 <= j < |next|
                  && next[i].stage == next[j].stage && next[i].file.physical == next[j].file.physical
                  && !IsFinal(next[i].file.state) && !IsFinal(next[j].file.state)
      ensures next[i].file.state == next[j].file.state
    {
      assert next[i] == db.rows[i] && next[j] == db.rows[j];
    }
  }

  // ---- Statements about the listed files and about the rows of the stage are the same ----

  lemma ListedIsRow(rows: seq<Row>, id: StageId, f: File)
    requires f in FilesOf(rows, id)
    ensures exists i :: 0 <= i < |rows| && rows[i].stage == id && rows[i].file == f
  {
    ListedAreRows(rows, id, f);
  }

  lemma RowIsListed(rows: seq<Row>, id: StageId, i: nat)
    requires i < |rows| && rows[i].stage == id
    ensures rows[i].file in FilesOf(rows, id)
  {
    assert rows[i] == Row(id, rows[i].file);
    ListedAreRows(rows, id, rows[i].file);
  }

  lemma FinalReflected(rows: seq<Row>, id: StageId)
    ensures AllFinal(FilesOf(rows, id)) <==> StageFinal(rows, id)
  {
    if AllFinal(FilesOf(rows, id)) {
      forall i | 0 <= i < |rows| && rows[i].stage == id ensures IsFinal(rows[i].file.state) {
        RowIsListed(rows, id, i);
      }
    }
    if StageFinal(rows, id) {
      forall f | f in FilesOf(rows, id) ensures IsFinal(f.state) {
        ListedIsRow(rows, id, f);
      }
    }
  }

  lemma FirstStartReflected(rows: seq<Row>, id: StageId)
    requires AnyBegun(FilesOf(rows, id))
    ensures IsFirstStart(rows, id, MinStarted(FilesOf(rows, id)))
  {
    var files := FilesOf(rows, id);
    var f :| f in files && !f.state.Submitted? && f.startedAt == MinStarted(files);
    ListedIsRow(rows, id, f);
    forall i | 0 <= i < |rows| && rows[i].stage == id && !rows[i].file.state.Submitted?
      ensures MinStarted(files) <= rows[i].file.startedAt
    {
      RowIsListed(rows, id, i);
    }
  }

  /** A completion time computed now is the last finishing time, and not before the first start. */
  lemma CompletionReflected(rows: seq<Row>, id: StageId, first: Time)
    requires FilesOf(rows, id) != [] && IsFirstStart(rows, id, first)
    requires forall i :: 0 <= i < |rows| && rows[i].stage == id ==>
               IsFinal(rows[i].file.state) && rows[i].file.startedAt <= rows[i].file.finishedAt
    ensures first <= MaxFinished(FilesOf(rows, id))
    ensures FinishedSince(rows, id, MaxFinished(FilesOf(rows, id)))
  {
    var files := FilesOf(rows, id);
    var f :| f in files && f.finishedAt == MaxFinished(files);
    ListedIsRow(rows, id, f);
  }

  lemma StagePresent(rows: seq<Row>, id: StageId)
    requires HasFiles(rows, id)
    ensures FilesOf(rows, id) != []
  {
    var i :| 0 <= i < |rows| && rows[i].stage == id;
    RowIsListed(rows, id, i);
  }

  lemma StartRefreshed(rows: seq<Row>, id: StageId, t: Times, clock: Time)
    requires StageOk(rows, id, t, clock) && AnyBegun(FilesOf(rows, id))
    requires forall i :: 0 <= i < |rows| && rows[i].stage == id && !rows[i].file.state.Submitted? ==>
               t.createdAt <= rows[i].file.startedAt
    ensures var s := if t.startedAt == 0 then MinStarted(FilesOf(rows, id)) else t.startedAt;
            t.createdAt <= s && IsFirstStart(rows, id, s)
  {
    if t.startedAt == 0 {
      FirstStartReflected(rows, id);
    }
  }

  lemma StageRefreshed(rows: seq<Row>, id: StageId, t: Times, clock: Time)
    requires StageOk(rows, id, t, clock)
    requires forall i :: 0 <= i < |rows| && rows[i].stage == id ==>
               && LifeCycle(rows[i].file, clock)
               && (!rows[i].file.state.Submitted? ==> t.createdAt <= rows[i].file.startedAt)
    ensures FilesOf(rows, id) != []
    ensures StageOk(rows, id, Refreshed(t, FilesOf(rows, id)), clock)
  {
    StagePresent(rows, id);
    var files := FilesOf(rows, id);
    FinalReflected(rows, id);
    if AnyBegun(files) {
      StartRefreshed(rows, id, t, clock);
      var u := Refreshed(t, files);
      if t.completedAt == 0 && AllFinal(files) {
        CompletionReflected(rows, id, u.startedAt);
        assert u.completedAt == MaxFinished(files);
      }
    } else {
      assert files[0] in files && !AllFinal(files);
      assert Refreshed(t, files) == t;
    }
  }

  lemma ReplaceTimes(db: Db, id: StageId, u: Times, clock: Time)
    requires Inv(db, clock) && id in db.stages
    requires StageOk(db.rows, id, u, clock) && u.createdAt == db.stages[id].createdAt
    ensures Inv(Db(db.stages[id := u], db.rows), clock)
  {
    var stages := db.stages[id := u];
    forall i | 0 <= i < |db.rows| ensures RowOk(db.rows[i], stages, clock) {
      assert RowOk(db.rows[i], db.stages, clock);
    }
    forall k | k in stages ensures StageOk(db.rows, k, stages[k], clock) {
      assert k in db.stages;
    }
  }

  /** Refreshing the timestamps of one stage from its own files keeps the invariant. */
  lemma RefreshKeepsInv(db: Db, id: StageId, clock: Time)
    requires Inv(db, clock) && id in db.stages
    ensures FilesOf(db.rows, id) != []
    ensures Inv(Db(db.stages[id := Refreshed(db.stages[id], FilesOf(db.rows, id))], db.rows), clock)
  {
    hide Inv, StageOk, LifeCycle;
    StageIsOk(db, clock, id);
    forall i | 0 <= i < |db.rows| && db.rows[i].stage == id
      ensures LifeCycle(db.rows[i].file, clock)
      ensures !db.rows[i].file.state.Submitted? ==> db.stages[id].createdAt <= db.rows[i].file.startedAt
    {
      RowIsOk(db, clock, i);
    }
    StageRefreshed(db.rows, id, db.stages[id], clock);
    ReplaceTimes(db, id, Refreshed(db.stages[id], FilesOf(db.rows, id)), clock);
  }
}
