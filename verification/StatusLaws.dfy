// Status: what it reports is what the database holds afterwards, although it computes new
// states file by file and writes them back by physical path, touching other stages too.
module StatusLaws {
  import opened Options
  import opened Paths
  import opened PathLists
  import opened Files
  import opened Storage
  import opened Tables
  import opened Invariants
  import opened World

  /** Each file of the stage asks for its own next state, and no other file contradicts it. */
  lemma TargetOfRow(db: Db, disk: Disk, clock: Time, i: nat)
    requires Inv(db, clock) && i < |db.rows| && !IsFinal(db.rows[i].file.state)
    ensures var f := db.rows[i].file;
            var s := NextState(f.state, Look(disk, f.physical));
            Target(db.rows, db.rows[i].stage, disk, f.physical) == if s == f.state then None else Some(s)
  {
    var r := db.rows[i];
    assert HasRow(db.rows, r.stage, r.file.physical, r.file.state);
    forall s | HasRow(db.rows, r.stage, r.file.physical, s) && !IsFinal(s)
      ensures s == r.file.state
    {
      var j :| 0 <= j < |db.rows| && db.rows[j].stage == r.stage && db.rows[j].file.physical == r.file.physical && db.rows[j].file.state == s;
    }
  }

  /** On a file that changes, the update of the database and the assignment in memory agree. */
  lemma UpdateIsAssignment(f: File, x: Facts, clock: Time, now: Time)
    requires LifeCycle(f, clock) && NextState(f.state, x) != f.state
    ensures MoveGuarded(f, NextState(f.state, x), now) == StatusFile(f, x, now)
  {
  }

  lemma StatusRowAt(rows: seq<Row>, id: StageId, disk: Disk, now: Time, i: nat)
    requires i < |rows|
    ensures var f, t := rows[i].file, Target(rows, id, disk, rows[i].file.physical);
            StatusRows(rows, id, disk, now)[i] == Row(rows[i].stage, if t.Some? then MoveGuarded(f, t.value, now) else f)
  {
    assert rows[i].file.physical in (set k | 0 <= k < |rows| :: rows[k].file.physical);
  }

  lemma FinalIsFixed(f: File, s: State, now: Time)
    requires IsFinal(f.state)
    ensures s.Submitted? || MoveGuarded(f, s, now) == f
  {
  }

  /** Written back by physical path, each file of the stage becomes what status reports. */
  lemma WriteBackMatchesReport(db: Db, disk: Disk, clock: Time, now: Time, i: nat)
    requires Inv(db, clock) && clock <= now && i < |db.rows|
    ensures var r := db.rows[i];
            StatusRows(db.rows, r.stage, disk, now)[i] == Row(r.stage, StatusFile(r.file, Look(disk, r.file.physical), now))
  {
    hide Inv;
    var r := db.rows[i];
    var f, x := r.file, Look(disk, r.file.physical);
    RowIsOk(db, clock, i);
    StatusRowAt(db.rows, r.stage, disk, now, i);
    if IsFinal(f.state) {
      var t := Target(db.rows, r.stage, disk, f.physical);
      if t.Some? { FinalIsFixed(f, t.value, now); }
    } else {
      TargetOfRow(db, disk, clock, i);
      if NextState(f.state, x) != f.state { UpdateIsAssignment(f, x, clock, now); }
    }
  }

  lemma KeepsLogical(f: File, x: Facts, now: Time)
    ensures StatusFile(f, x, now).logical == f.logical
  {
  }

  lemma ReportCons(f: File, files: seq<File>, disk: Disk, now: Time)
    ensures Report([f] + files, disk, now) == [StatusFile(f, Look(disk, f.physical), now)] + Report(files, disk, now)
  {
  }

  /** Reporting keeps logical paths, so it does not disturb the order of the query. */
  lemma {:induction false} ReportOfInserted(f: File, files: seq<File>, disk: Disk, now: Time)
    ensures Report(InsertByText(f, files), disk, now)
         == InsertByText(StatusFile(f, Look(disk, f.physical), now), Report(files, disk, now))
  {
    hide TextLess, StatusFile, Report;
    KeepsLogical(f, Look(disk, f.physical), now);
    if files != [] { KeepsLogical(files[0], Look(disk, files[0].physical), now); }
    if files == [] || !TextLess(files[0].logical, f.logical) {
      ReportCons(f, files, disk, now);
      if files != [] {
        ReportCons(files[0], files[1..], disk, now);
        assert files == [files[0]] + files[1..];
      }
    } else {
      var head, rest := files[0], files[1..];
      ReportOfInserted(f, rest, disk, now);
      ReportCons(head, InsertByText(f, rest), disk, now);
      ReportCons(head, rest, disk, now);
      assert files == [head] + rest;
      assert Report(files, disk, now)[1..] == Report(rest, disk, now);
    }
  }

  lemma {:induction false} FilesReported(rows: seq<Row>, next: seq<Row>, id: StageId, disk: Disk, now: Time)
    requires |next| == |rows|
    requires forall i :: 0 <= i < |rows| ==> next[i].stage == rows[i].stage
    requires forall i :: 0 <= i < |rows| && rows[i].stage == id ==>
               next[i].file == StatusFile(rows[i].file, Look(disk, rows[i].file.physical), now)
    ensures FilesOf(next, id) == Report(FilesOf(rows, id), disk, now)
  {
    hide TextLess, StatusFile;
    if rows != [] {
      FilesReported(rows[1..], next[1..], id, disk, now);
      if rows[0].stage == id {
        ReportOfInserted(rows[0].file, FilesOf(rows[1..], id), disk, now);
      }
    }
  }

  /** Main result: what the query finds after the write-back is what status computed in
      memory from what the query found before. */
  lemma ReportIsStored(db: Db, id: StageId, disk: Disk, clock: Time, now: Time)
    requires Inv(db, clock) && clock <= now
    ensures FilesOf(StatusRows(db.rows, id, disk, now), id) == Report(FilesOf(db.rows, id), disk, now)
  {
    hide Inv;
    var next := StatusRows(db.rows, id, disk, now);
    forall i | 0 <= i < |db.rows|
      ensures next[i].stage == db.rows[i].stage
      ensures db.rows[i].stage == id ==> next[i].file == StatusFile(db.rows[i].file, Look(disk, db.rows[i].file.physical), now)
    {
      if db.rows[i].stage == id { WriteBackMatchesReport(db, disk, clock, now, i); }
    }
    FilesReported(db.rows, next, id, disk, now);
  }

  // ---- The list of updates ----

  lemma {:induction false} PairHasFile(files: seq<File>, disk: Disk, pr: (Path, State))
    requires pr in StatusPairs(files, disk)
    ensures exists f :: f in files && f.physical == pr.0 && NextState(f.state, Look(disk, f.physical)) == pr.1 && pr.1 != f.state
  {
    var n := |files| - 1;
    assert files[n] in files;
    if pr in StatusPairs(files[..n], disk) {
      PairHasFile(files[..n], disk, pr);
      var f :| f in files[..n] && f.physical == pr.0 && NextState(f.state, Look(disk, f.physical)) == pr.1 && pr.1 != f.state;
      assert f in files;
    }
  }

  lemma {:induction false} FileHasPair(files: seq<File>, disk: Disk, f: File)
    requires f in files && NextState(f.state, Look(disk, f.physical)) != f.state
    ensures (f.physical, NextState(f.state, Look(disk, f.physical))) in StatusPairs(files, disk)
  {
    var n := |files| - 1;
    if f != files[n] {
      assert files == files[..n] + [files[n]];
      FileHasPair(files[..n], disk, f);
    }
  }

  lemma ChangingRowHasTarget(db: Db, disk: Disk, clock: Time, i: nat)
    requires Inv(db, clock) && i < |db.rows|
    requires var f := db.rows[i].file; NextState(f.state, Look(disk, f.physical)) != f.state
    ensures var f, targets := db.rows[i].file, StatusTargets(db.rows, db.rows[i].stage, disk);
            f.physical in targets && targets[f.physical] == NextState(f.state, Look(disk, f.physical))
  {
    TargetOfRow(db, disk, clock, i);
    assert db.rows[i].file.physical in (set k | 0 <= k < |db.rows| :: db.rows[k].file.physical);
  }

  lemma PairIsTarget(db: Db, id: StageId, files: seq<File>, disk: Disk, clock: Time, pr: (Path, State))
    requires Inv(db, clock)
    requires forall f :: f in files ==> f in FilesOf(db.rows, id)
    requires pr in StatusPairs(files, disk)
    ensures pr.0 in StatusTargets(db.rows, id, disk) && StatusTargets(db.rows, id, disk)[pr.0] == pr.1
  {
    PairHasFile(files, disk, pr);
    var f :| f in files && f.physical == pr.0 && NextState(f.state, Look(disk, f.physical)) == pr.1 && pr.1 != f.state;
    ListedIsRow(db.rows, id, f);
    var i :| 0 <= i < |db.rows| && db.rows[i].stage == id && db.rows[i].file == f;
    ChangingRowHasTarget(db, disk, clock, i);
  }

  lemma TargetHasPair(rows: seq<Row>, id: StageId, files: seq<File>, disk: Disk, p: Path)
    requires forall f :: f in FilesOf(rows, id) ==> f in files
    requires p in StatusTargets(rows, id, disk)
    ensures (p, StatusTargets(rows, id, disk)[p]) in StatusPairs(files, disk)
  {
    var x, t := Look(disk, p), Target(rows, id, disk, p);
    var s := if HasRow(rows, id, p, Started) && NextState(Started, x) != Started then Started else Submitted;
    assert HasRow(rows, id, p, s) && t == Some(NextState(s, x)) && NextState(s, x) != s;
    var i :| 0 <= i < |rows| && rows[i].stage == id && rows[i].file.physical == p && rows[i].file.state == s;
    RowIsListed(rows, id, i);
    FileHasPair(files, disk, rows[i].file);
  }

  /** The batch of mixed states has one target per physical path, so the loop of updates is
      one simultaneous change, in whatever order the files are visited. */
  lemma StatusBatch(db: Db, id: StageId, files: seq<File>, disk: Disk, clock: Time, now: Time)
    requires Inv(db, clock)
    requires multiset(files) == multiset(FilesOf(db.rows, id))
    ensures OnPairs(db.rows, StatusPairs(files, disk), now) == StatusRows(db.rows, id, disk, now)
  {
    var pairs, targets := StatusPairs(files, disk), StatusTargets(db.rows, id, disk);
    SameElements(files, FilesOf(db.rows, id));
    forall pr | pr in pairs ensures pr.0 in targets && targets[pr.0] == pr.1 {
      PairIsTarget(db, id, files, disk, clock, pr);
    }
    forall p | p in targets ensures (p, targets[p]) in pairs {
      TargetHasPair(db.rows, id, files, disk, p);
    }
    BatchIsSimultaneous(db.rows, pairs, targets, now);
  }

  // ---- Verdicts ----

  /** What status should make of an unfinished file, from the answers of the storage alone. */
  ghost predicate Justified(from: State, x: Facts, to: State) {
    var stub := x.sizeInfo.Ok? && x.sizeInfo.value.isStub;
    var recalled := x.recall == Answer.Ok(true);
    && (to == Started <==> recalled)
    && (to == Completed <==> !recalled && !stub && (from.Started? || x.recall.Ok?))
    && (to == Failed <==> !recalled && (if from.Started? then stub else x.recall.Error?))
    && (to == Submitted <==> from.Submitted? && x.recall == Answer.Ok(false) && stub)
    && to != Cancelled
  }

  /** The times that go with the change of an unfinished file. */
  ghost predicate Timed(f: File, g: File, now: Time) {
    && g.startedAt == (if f.state.Submitted? && !g.state.Submitted? then now else f.startedAt)
    && g.finishedAt == (if IsFinal(g.state) then now else f.finishedAt)
  }

  lemma NextIsJustified(f: File, x: Facts, now: Time)
    requires !IsFinal(f.state)
    ensures var g := StatusFile(f, x, now); Justified(f.state, x, g.state) && Timed(f, g, now)
  {
    match x.recall
    case Error(_) =>
    case Ok(v) => if v { assert x.recall == Answer.Ok(true); } else { assert x.recall == Answer.Ok(false); }
  }

  /** Main result: the state of every file of a stage after a status call, from the answers. */
  lemma StatusVerdict(db: Db, id: StageId, disk: Disk, clock: Time, now: Time, i: nat)
    requires Inv(db, clock) && clock <= now && i < |db.rows| && db.rows[i].stage == id
    ensures var f, q := db.rows[i].file, StatusDb(db, id, disk, now).rows[i];
            && q.stage == id && q.file.logical == f.logical && q.file.physical == f.physical
            && (if IsFinal(f.state) then q.file == f
                else Justified(f.state, Look(disk, f.physical), q.file.state) && Timed(f, q.file, now))
  {
    hide Inv, Justified, Timed, Look;
    var f := db.rows[i].file;
    RowIsOk(db, clock, i);
    WriteBackMatchesReport(db, disk, clock, now, i);
    if !IsFinal(f.state) { NextIsJustified(f, Look(disk, f.physical), now); }
  }

  /** Main result: what the call does to a row of any stage follows from what it does to an
      unfinished row of the visited stage with the same physical path. */
  lemma EffectElsewhere(db: Db, id: StageId, disk: Disk, clock: Time, now: Time, i: nat, j: nat)
    requires Inv(db, clock) && clock <= now && i < |db.rows| && j < |db.rows|
    requires db.rows[i].stage == id && db.rows[j].file.physical == db.rows[i].file.physical
    requires !IsFinal(db.rows[i].file.state) && !IsFinal(db.rows[j].file.state)
    ensures var next := StatusDb(db, id, disk, now).rows;
            var s, t := next[i].file.state, next[j].file.state;
            && (IsFinal(s) ==> t == s)
            && (s == Started && db.rows[i].file.state.Submitted? ==> t == Started)
            && (s == db.rows[i].file.state ==> next[j] == db.rows[j])
  {
    hide Inv, Look;
    RowIsOk(db, clock, i);
    RowIsOk(db, clock, j);
    TargetOfRow(db, disk, clock, i);
    StatusRowAt(db.rows, id, disk, now, i);
    StatusRowAt(db.rows, id, disk, now, j);
  }

  /** A row whose path no unfinished file of the visited stage has, and a final row, stay. */
  lemma UntouchedElsewhere(db: Db, id: StageId, disk: Disk, now: Time, j: nat)
    requires id in db.stages && j < |db.rows|
    requires IsFinal(db.rows[j].file.state)
          || forall i :: 0 <= i < |db.rows| && db.rows[i].stage == id && db.rows[i].file.physical == db.rows[j].file.physical
               ==> IsFinal(db.rows[i].file.state)
    ensures StatusDb(db, id, disk, now).rows[j] == db.rows[j]
  {
    StatusRowAt(db.rows, id, disk, now, j);
    var t := Target(db.rows, id, disk, db.rows[j].file.physical);
    if IsFinal(db.rows[j].file.state) && t.Some? { FinalIsFixed(db.rows[j].file, t.value, now); }
  }

  /** Main result: after status the start of a stage is written exactly when some file began,
      its completion exactly when all files are final; times written before stay, a completion
      written now is the last finish, and no other stage gets new times. */
  lemma TimesAreWritten(db: Db, id: StageId, disk: Disk, clock: Time, now: Time)
    requires Inv(db, clock) && clock <= now && id in db.stages
    ensures var next := StatusDb(db, id, disk, now);
            var t, u := db.stages[id], next.stages[id];
            && next.stages == db.stages[id := u]
            && u.createdAt == t.createdAt
            && (u.startedAt != 0 <==> exists i :: 0 <= i < |next.rows| && next.rows[i].stage == id && !next.rows[i].file.state.Submitted?)
            && (u.completedAt != 0 <==> forall i :: 0 <= i < |next.rows| && next.rows[i].stage == id ==> IsFinal(next.rows[i].file.state))
            && (t.startedAt != 0 ==> u.startedAt == t.startedAt)
            && (u.startedAt != 0 ==> IsFirstStart(next.rows, id, u.startedAt))
            && (t.completedAt != 0 ==> u.completedAt == t.completedAt)
            && (t.completedAt == 0 && u.completedAt != 0 ==> IsLastFinish(next.rows, id, u.completedAt))
  {
    var next := StatusDb(db, id, disk, now);
    StatusKeepsInv(db, id, disk, clock, now);
    WrittenTimes(next, id, db.stages[id], now);
  }

  ghost predicate IsLastFinish(rows: seq<Row>, id: StageId, t: Time) {
    && (exists i :: 0 <= i < |rows| && rows[i].stage == id && rows[i].file.finishedAt == t)
    && (forall i :: 0 <= i < |rows| && rows[i].stage == id ==> rows[i].file.finishedAt <= t)
  }

  lemma WrittenTimes(db: Db, id: StageId, t: Times, clock: Time)
    requires Inv(db, clock) && id in db.stages && db.stages[id] == Refreshed(t, FilesOf(db.rows, id))
    ensures var u := db.stages[id];
            && (u.startedAt != 0 <==> exists i :: 0 <= i < |db.rows| && db.rows[i].stage == id && !db.rows[i].file.state.Submitted?)
            && (u.completedAt != 0 <==> StageFinal(db.rows, id))
            && (u.startedAt != 0 ==> IsFirstStart(db.rows, id, u.startedAt))
            && (t.completedAt == 0 && u.completedAt != 0 ==> IsLastFinish(db.rows, id, u.completedAt))
  {
    hide Inv, StageFinal, IsLastFinish;
    var files := FilesOf(db.rows, id);
    StageIsOk(db, clock, id);
    StagePresent(db.rows, id);
    FilesHaveTimes(db, id, clock);
    FinalReflected(db.rows, id);
    BegunReflected(db.rows, id);
    LastFinishListed(db.rows, id);
  }

  lemma BegunReflected(rows: seq<Row>, id: StageId)
    ensures AnyBegun(FilesOf(rows, id)) <==> exists i :: 0 <= i < |rows| && rows[i].stage == id && !rows[i].file.state.Submitted?
  {
    if AnyBegun(FilesOf(rows, id)) {
      var f :| f in FilesOf(rows, id) && !f.state.Submitted?;
      ListedIsRow(rows, id, f);
    }
    if i :| 0 <= i < |rows| && rows[i].stage == id && !rows[i].file.state.Submitted? {
      RowIsListed(rows, id, i);
    }
  }

  lemma LastFinishListed(rows: seq<Row>, id: StageId)
    requires FilesOf(rows, id) != []
    ensures IsLastFinish(rows, id, MaxFinished(FilesOf(rows, id)))
  {
    var files := FilesOf(rows, id);
    var last := MaxFinished(files);
    var f :| f in files && f.finishedAt == last;
    ListedIsRow(rows, id, f);
    forall i | 0 <= i < |rows| && rows[i].stage == id ensures rows[i].file.finishedAt <= MaxFinished(files) {
      RowIsListed(rows, id, i);
    }
  }

  /** A stage that finishes a file finishes, with the same verdict, every row of the same
      physical path that is not final, in whatever stage it is. */
  lemma VerdictIsShared(db: Db, disk: Disk, clock: Time, now: Time, i: nat, j: nat)
    requires Inv(db, clock) && clock <= now && i < |db.rows| && j < |db.rows|
    requires db.rows[j].file.physical == db.rows[i].file.physical
    requires !IsFinal(db.rows[i].file.state) && !IsFinal(db.rows[j].file.state)
    requires IsFinal(NextState(db.rows[i].file.state, Look(disk, db.rows[i].file.physical)))
    ensures StatusRows(db.rows, db.rows[i].stage, disk, now)[j].file.state
         == NextState(db.rows[i].file.state, Look(disk, db.rows[i].file.physical))
  {
    hide Inv, Target;
    TargetOfRow(db, disk, clock, i);
    StatusRowAt(db.rows, db.rows[i].stage, disk, now, j);
  }

  /** The state after an update by physical path with this target, if there is one. */
  function MovedState(s: State, t: Option<State>): State {
    if t.Some? && Admits(s, t.value) then t.value else s
  }

  /** All rows of a physical path were updated with one target, whatever their stages. */
  ghost predicate MovedTogether(rows: seq<Row>, next: seq<Row>, p: Path, t: Option<State>) {
    |next| == |rows| && forall i :: 0 <= i < |rows| ==>
      && next[i].stage == rows[i].stage && next[i].file.physical == rows[i].file.physical
      && (rows[i].file.physical == p ==> next[i].file.state == MovedState(rows[i].file.state, t))
  }

  lemma StatusMovesTogether(rows: seq<Row>, id: StageId, disk: Disk, now: Time, p: Path)
    ensures MovedTogether(rows, StatusRows(rows, id, disk, now), p, Target(rows, id, disk, p))
  {
    hide Target;
    forall i | 0 <= i < |rows|
      ensures var r, q := rows[i], StatusRows(rows, id, disk, now)[i];
              && q.stage == r.stage && q.file.physical == r.file.physical
              && q.file.state == MovedState(r.file.state, Target(rows, id, disk, r.file.physical))
    {
      StatusRowAt(rows, id, disk, now, i);
    }
  }

  lemma RowMoved(rows: seq<Row>, next: seq<Row>, p: Path, t: Option<State>, id: StageId, s: State)
    requires MovedTogether(rows, next, p, t)
    ensures HasRow(next, id, p, s) <==> exists from :: HasRow(rows, id, p, from) && MovedState(from, t) == s
  {
    if HasRow(next, id, p, s) {
      var i :| 0 <= i < |next| && next[i].stage == id && next[i].file.physical == p && next[i].file.state == s;
      assert HasRow(rows, id, p, rows[i].file.state);
    }
    if from :| HasRow(rows, id, p, from) && MovedState(from, t) == s {
      var i :| 0 <= i < |rows| && rows[i].stage == id && rows[i].file.physical == p && rows[i].file.state == from;
      assert next[i].file.state == s;
    }
  }

  /** A state that some stage gives a path under these answers. */
  predicate Proper(t: Option<State>, x: Facts) {
    t.Some? ==> if x.recall == Answer.Ok(true) then t.value.Started? else IsFinal(t.value)
  }

  /** Once a path was moved, no stage moves it again; before, every stage moves it as ever. */
  lemma TargetAfter(rows: seq<Row>, next: seq<Row>, p: Path, t: Option<State>, id: StageId, disk: Disk)
    requires MovedTogether(rows, next, p, t) && Proper(t, Look(disk, p))
    ensures Target(next, id, disk, p) == if t.Some? then None else Target(rows, id, disk, p)
    ensures Proper(Target(rows, id, disk, p), Look(disk, p))
  {
    RowMoved(rows, next, p, t, id, Started);
    RowMoved(rows, next, p, t, id, Submitted);
  }

  /** One stage has a started row for the path, the other a submitted one. */
  ghost predicate Opposed(rows: seq<Row>, a: StageId, b: StageId, p: Path) {
    || (HasRow(rows, a, p, Started) && HasRow(rows, b, p, Submitted))
    || (HasRow(rows, a, p, Submitted) && HasRow(rows, b, p, Started))
  }

  /** The answers on which a started and a submitted file of one path part: the recall
      attribute cannot be read, and the file does not look like a stub. */
  predicate Undecided(x: Facts) {
    x.recall.Error? && !SeenAsStub(x)
  }

  lemma NotBothStates(db: Db, clock: Time, id: StageId, p: Path)
    requires Inv(db, clock)
    ensures !(HasRow(db.rows, id, p, Started) && HasRow(db.rows, id, p, Submitted))
  {
  }

  function FirstOf(t: Option<State>, u: Option<State>): Option<State> {
    if t.Some? then t else u
  }

  /** Of two stages the one that moves the path first decides. */
  lemma FirstOfTwoDecides(db: Db, a: StageId, b: StageId, disk: Disk, now: Time, later: Time, i: nat)
    requires a in db.stages && b in db.stages && i < |db.rows|
    ensures var p, s := db.rows[i].file.physical, db.rows[i].file.state;
            var ta, tb := Target(db.rows, a, disk, p), Target(db.rows, b, disk, p);
            StatusDb(StatusDb(db, a, disk, now), b, disk, later).rows[i].file.state == MovedState(s, FirstOf(ta, tb))
  {
    var p, mid := db.rows[i].file.physical, StatusRows(db.rows, a, disk, now);
    StatusMovesTogether(db.rows, a, disk, now, p);
    TargetAfter(db.rows, mid, p, Target(db.rows, a, disk, p), b, disk);
    StatusMovesTogether(mid, b, disk, later, p);
  }

  /** The targets of two stages for one path are both there and differ exactly when the
      storage leaves the path undecided and the stages are opposed. */
  lemma TargetsPart(rows: seq<Row>, a: StageId, b: StageId, disk: Disk, p: Path)
    requires !(HasRow(rows, a, p, Started) && HasRow(rows, a, p, Submitted))
    requires !(HasRow(rows, b, p, Started) && HasRow(rows, b, p, Submitted))
    ensures var ta, tb := Target(rows, a, disk, p), Target(rows, b, disk, p);
            var parted := Undecided(Look(disk, p)) && Opposed(rows, a, b, p);
            && (ta.Some? && tb.Some? && ta != tb <==> parted)
            && (parted && HasRow(rows, a, p, Started) ==> ta == Some(Completed) && tb == Some(Failed))
            && (parted && HasRow(rows, b, p, Started) ==> ta == Some(Failed) && tb == Some(Completed))
            && Proper(ta, Look(disk, p)) && Proper(tb, Look(disk, p))
  {
    hide HasRow;
  }

  /** Main result: the order of status calls on two stages matters to a row exactly when the
      row is not final, the storage leaves its path undecided, and one of the stages has started
      the path while the other has not; then the stage visited first decides for every row. */
  lemma VerdictsDisagree(db: Db, a: StageId, b: StageId, disk: Disk, clock: Time, now: Time, later: Time, i: nat)
    requires Inv(db, clock) && a in db.stages && b in db.stages && i < |db.rows|
    ensures var p, s := db.rows[i].file.physical, db.rows[i].file.state;
            var ab := StatusDb(StatusDb(db, a, disk, now), b, disk, later).rows[i].file.state;
            var ba := StatusDb(StatusDb(db, b, disk, now), a, disk, later).rows[i].file.state;
            var matters := !IsFinal(s) && Undecided(Look(disk, p)) && Opposed(db.rows, a, b, p);
            && (ab != ba <==> matters)
            && (matters && HasRow(db.rows, a, p, Started) ==> ab.Completed? && ba.Failed?)
            && (matters && HasRow(db.rows, b, p, Started) ==> ab.Failed? && ba.Completed?)
  {
    hide Inv, HasRow, Target, StatusDb;
    var p := db.rows[i].file.physical;
    FirstOfTwoDecides(db, a, b, disk, now, later, i);
    FirstOfTwoDecides(db, b, a, disk, now, later, i);
    NotBothStates(db, clock, a, p);
    NotBothStates(db, clock, b, p);
    TargetsPart(db.rows, a, b, disk, p);
  }

  /** A file whose size cannot be read counts as completed, not as failed, unless a recall is
      in progress or, while submitted, the recall attribute cannot be read either. */
  lemma UnreadableCompletes(s: State, x: Facts)
    requires !IsFinal(s) && x.sizeInfo.Error?
    ensures NextState(s, x) == Completed <==> x.recall == Answer.Ok(false) || (s.Started? && x.recall.Error?)
  {
    match x.recall
    case Error(_) =>
    case Ok(v) => if v { assert x.recall == Answer.Ok(true); } else { assert x.recall == Answer.Ok(false); }
  }

  // ---- Idempotence ----

  /** After status every file of the stage that is not final is either started with its
      recall in progress, or a submitted stub without one. */
  ghost predicate Settled(rows: seq<Row>, id: StageId, disk: Disk) {
    forall i :: 0 <= i < |rows| && rows[i].stage == id ==> SettledFile(rows[i].file, Look(disk, rows[i].file.physical))
  }

  predicate SettledFile(f: File, x: Facts) {
    match f.state
    case Started => x.recall == Answer.Ok(true)
    case Submitted => x.recall.Ok? && !x.recall.value && SeenAsStub(x)
    case _ => true
  }

  lemma StatusSettles(db: Db, id: StageId, disk: Disk, clock: Time, now: Time)
    requires Inv(db, clock) && clock <= now && id in db.stages
    ensures Settled(StatusDb(db, id, disk, now).rows, id, disk)
  {
    hide Inv, StatusFile, SettledFile;
    var next := StatusRows(db.rows, id, disk, now);
    forall i | 0 <= i < |next| && next[i].stage == id
      ensures SettledFile(next[i].file, Look(disk, next[i].file.physical))
    {
      WriteBackMatchesReport(db, disk, clock, now, i);
      StatusFileSettles(db.rows[i].file, Look(disk, db.rows[i].file.physical), now);
    }
  }

  lemma StatusFileSettles(f: File, x: Facts, now: Time)
    ensures SettledFile(StatusFile(f, x, now), x) && StatusFile(f, x, now).physical == f.physical
  {
  }

  /** In a settled stage status finds nothing to update. */
  lemma SettledHasNoTargets(rows: seq<Row>, id: StageId, disk: Disk)
    requires Settled(rows, id, disk)
    ensures StatusTargets(rows, id, disk) == map[]
    ensures forall now :: StatusRows(rows, id, disk, now) == rows
  {
    forall p ensures Target(rows, id, disk, p).None? {
    }
  }

  lemma RefreshedTwice(t: Times, files: seq<File>, clock: Time)
    requires forall f :: f in files ==> LifeCycle(f, clock)
    ensures Refreshed(Refreshed(t, files), files) == Refreshed(t, files)
  {
  }

  lemma FilesHaveTimes(db: Db, id: StageId, clock: Time)
    requires Inv(db, clock)
    ensures forall f :: f in FilesOf(db.rows, id) ==> LifeCycle(f, clock)
  {
    forall f | f in FilesOf(db.rows, id) ensures LifeCycle(f, clock) {
      ListedIsRow(db.rows, id, f);
      var i :| 0 <= i < |db.rows| && db.rows[i].stage == id && db.rows[i].file == f;
      assert RowOk(db.rows[i], db.stages, clock);
    }
  }

  lemma SettledStaysPut(db: Db, id: StageId, disk: Disk, later: Time)
    requires id in db.stages && Settled(db.rows, id, disk)
    requires Refreshed(db.stages[id], FilesOf(db.rows, id)) == db.stages[id]
    ensures StatusDb(db, id, disk, later) == db
  {
    SettledHasNoTargets(db.rows, id, disk);
    assert StatusRows(db.rows, id, disk, later) == db.rows;
    assert db.stages[id := db.stages[id]] == db.stages;
  }

  /** Main result: on stable storage a second status, even later, changes nothing. */
  lemma StatusIsIdempotent(db: Db, id: StageId, disk: Disk, clock: Time, now: Time, later: Time)
    requires Inv(db, clock) && clock <= now <= later
    ensures StatusDb(StatusDb(db, id, disk, now), id, disk, later) == StatusDb(db, id, disk, now)
  {
    if id in db.stages {
      var once := StatusDb(db, id, disk, now);
      StatusSettles(db, id, disk, clock, now);
      StatusKeepsInv(db, id, disk, clock, now);
      FilesHaveTimes(once, id, now);
      RefreshedTwice(db.stages[id], FilesOf(once.rows, id), now);
      SettledStaysPut(once, id, disk, later);
    }
  }
}
