// Take over: conservation of the ready paths, and the order of attribute and database.
module TakeOverLaws {
  import opened Paths
  import opened PathLists
  import opened Files
  import opened Storage
  import opened Tables
  import opened Invariants
  import opened World
  import opened InProgressLaws
  import opened StatusLaws

  ghost function TakenRows(w: World, e: Event): seq<Row>
    requires e.TakeOver?
  {
    Retarget(w.db.rows, TakeOverTargets(e.selected, w.disk), e.now)
  }

  /** No selected path keeps a submitted row, and no other path loses one. */
  lemma ReadyAfterwards(w: World, e: Event)
    requires e.TakeOver?
    ensures ReadyPaths(TakenRows(w, e)) == ReadyPaths(w.db.rows) - (set p | p in e.selected)
  {
    var rows, next := w.db.rows, TakenRows(w, e);
    forall p | p in ReadyPaths(rows) && p !in e.selected ensures p in ReadyPaths(next) {
      var i :| 0 <= i < |rows| && rows[i].file.state == Submitted && rows[i].file.physical == p;
      assert next[i] == rows[i];
    }
    forall p | p in ReadyPaths(next) ensures p in ReadyPaths(rows) && p !in e.selected {
      var i :| 0 <= i < |next| && next[i].file.state == Submitted && next[i].file.physical == p;
      assert rows[i].file.state == Submitted && rows[i].file.physical == p;
    }
  }

  /** Main result: the number of ready paths drops by exactly the smaller of the limit and
      the number of ready paths. */
  lemma ReadyCountDrops(w: World, e: Event)
    requires WorldOk(w) && e.TakeOver? && Enabled(w, e)
    ensures var ready := |ReadyPaths(w.db.rows)|;
            |ReadyPaths(Apply(w, e).db.rows)| == ready - (if e.limit < ready then e.limit else ready)
  {
    hide Inv;
    ReadyAfterwards(w, e);
    var chosen := set p | p in e.selected;
    DistinctSize(e.selected);
    assert chosen <= ReadyPaths(w.db.rows);
    assert |ReadyPaths(w.db.rows) - chosen| == |ReadyPaths(w.db.rows)| - |chosen|;
  }

  /** The answers that make a path ready to be recalled, still being recalled, or done. */
  ghost predicate Recallable(x: Facts) {
    && x.sizeInfo.Ok? && x.sizeInfo.value.size != 0 && x.sizeInfo.value.isStub
    && x.migrated.Ok? && x.recall != Answer.Ok(true)
  }

  ghost predicate BeingRecalled(x: Facts) {
    && x.sizeInfo.Ok? && x.sizeInfo.value.size != 0
    && x.migrated.Ok? && x.recall == Answer.Ok(true)
  }

  ghost predicate FoundOnDisk(x: Facts) {
    && x.sizeInfo.Ok? && x.sizeInfo.value.size != 0 && !x.sizeInfo.value.isStub
    && x.migrated.Ok? && x.recall == Answer.Ok(false)
  }

  /** The classes, each exactly by the answers of the storage. */
  lemma ClassByAnswers(x: Facts)
    ensures ClassOf(x) == NeedsRecall <==> Recallable(x)
    ensures ClassOf(x) == Recalling <==> BeingRecalled(x)
    ensures ClassOf(x) == AlreadyOnDisk <==> FoundOnDisk(x)
    ensures ClassOf(x) == Hopeless <==> !Recallable(x) && !BeingRecalled(x) && !FoundOnDisk(x)
  {
    BoolAnswer(x.recall);
  }

  /** What take over should make of an unfinished file of a selected path. */
  ghost predicate TakenTo(f: File, x: Facts, g: File, now: Time) {
    && (g.state == Started <==> Recallable(x) || BeingRecalled(x))
    && (g.state == Completed <==> FoundOnDisk(x))
    && (g.state == Failed <==> !Recallable(x) && !BeingRecalled(x) && !FoundOnDisk(x))
    && g.logical == f.logical && g.physical == f.physical
    && g.startedAt == (if f.state.Submitted? then now else f.startedAt)
    && g.finishedAt == (if IsFinal(g.state) then now else f.finishedAt)
  }

  /** Main result: a take-over call by the answers of the storage alone: the state and times of
      every row afterwards, which paths are handed out, and what becomes of the file system. */
  lemma TakeOverByAnswers(w: World, e: Event, i: nat, p: Path)
    requires WorldOk(w) && e.TakeOver? && Enabled(w, e) && i < |w.db.rows|
    ensures Apply(w, e).db.stages == w.db.stages
    ensures var r, q := w.db.rows[i], Apply(w, e).db.rows[i];
            && q.stage == r.stage
            && (if r.file.physical in e.selected && !IsFinal(r.file.state)
                then TakenTo(r.file, Look(w.disk, r.file.physical), q.file, e.now)
                else q == r)
    ensures p in HandedOut(e.selected, w.disk) <==> p in e.selected && Recallable(Look(w.disk, p))
    ensures Look(Apply(w, e).disk, p) ==
              if !w.config.mirrorMode && p in e.selected && Recallable(Look(w.disk, p)) && p !in e.refused
              then Look(w.disk, p).(recall := Answer.Ok(true)) else Look(w.disk, p)
  {
    hide Inv, Recallable, BeingRecalled, FoundOnDisk, ClassOf;
    RowsMoveByClass(w, e, i);
    if w.db.rows[i].file.physical in e.selected && !IsFinal(w.db.rows[i].file.state) { TakenByAnswers(w, e, i); }
    MarkedByAnswers(w, e.selected, e.refused, p);
  }

  lemma TakenByAnswers(w: World, e: Event, i: nat)
    requires WorldOk(w) && e.TakeOver? && Enabled(w, e) && i < |w.db.rows|
    requires w.db.rows[i].file.physical in e.selected && !IsFinal(w.db.rows[i].file.state)
    ensures TakenTo(w.db.rows[i].file, Look(w.disk, w.db.rows[i].file.physical), Apply(w, e).db.rows[i].file, e.now)
  {
    hide Inv, Recallable, BeingRecalled, FoundOnDisk, ClassOf;
    ClassByAnswers(Look(w.disk, w.db.rows[i].file.physical));
    RowIsOk(w.db, w.clock, i);
  }

  lemma MarkedByAnswers(w: World, selected: seq<Path>, refused: set<Path>, p: Path)
    ensures p in HandedOut(selected, w.disk) <==> p in selected && Recallable(Look(w.disk, p))
    ensures Look(MarkRecalls(w, selected, refused), p) ==
              if !w.config.mirrorMode && p in selected && Recallable(Look(w.disk, p)) && p !in refused
              then Look(w.disk, p).(recall := Answer.Ok(true)) else Look(w.disk, p)
  {
    hide ClassOf;
    ClassByAnswers(Look(w.disk, p));
  }

  /** Every row of a selected path moves as the class of the path says; final rows and rows
      of other paths stay.  Started rows of a path found on disk or hopeless move too. */
  lemma RowsMoveByClass(w: World, e: Event, i: nat)
    requires WorldOk(w) && e.TakeOver? && Enabled(w, e) && i < |w.db.rows|
    ensures var r, q := w.db.rows[i], Apply(w, e).db.rows[i];
            var c := ClassOf(Look(w.disk, r.file.physical));
            && q.stage == r.stage && q.file.logical == r.file.logical && q.file.physical == r.file.physical
            && (r.file.physical !in e.selected || IsFinal(r.file.state) ==> q == r)
            && (r.file.physical in e.selected && r.file.state.Submitted? ==>
                  q.file.state == ClassState(c) && q.file.startedAt == e.now)
            && (r.file.physical in e.selected && r.file.state.Started? ==>
                  if IsFinal(ClassState(c)) then q.file.state == ClassState(c) && q.file.finishedAt == e.now && q.file.startedAt == r.file.startedAt
                  else q == r)
  {
    hide Inv;
    RowIsOk(w.db, w.clock, i);
  }

  /** A path that needs a recall is seen as a stub. */
  lemma NeedsRecallIsStub(x: Facts)
    requires ClassOf(x).NeedsRecall?
    ensures SeenAsStub(x) && x.recall != Answer.Ok(true)
  {
  }

  lemma MarkedDisk(w: World, selected: seq<Path>, refused: set<Path>, p: Path)
    requires p in HandedOut(selected, w.disk)
    ensures RecallInProgress(MarkRecalls(w, selected, refused), p) <==> !w.config.mirrorMode && p !in refused
    ensures SeenAsStub(Look(MarkRecalls(w, selected, refused), p))
  {
    NeedsRecallIsStub(Look(w.disk, p));
    assert p in w.disk;
  }

  /** Main result: with nothing happening in between, status on a file's own stage after its
      path was handed out finds it started if the recall attribute was created, and declares
      it failed if it was not -- the reason why the attribute comes first. */
  lemma StatusAfterHandOut(w: World, e: Event, later: Time, i: nat)
    requires WorldOk(w) && e.TakeOver? && Enabled(w, e) && e.now <= later
    requires i < |w.db.rows| && w.db.rows[i].file.physical in HandedOut(e.selected, w.disk)
    requires !IsFinal(w.db.rows[i].file.state)
    ensures var v, p := Apply(w, e), w.db.rows[i].file.physical;
            && v.db.rows[i].file.state.Started?
            && StatusDb(v.db, w.db.rows[i].stage, v.disk, later).rows[i].file.state
               == if !w.config.mirrorMode && p !in e.refused then Started else Failed
  {
    hide Inv;
    var v, r := Apply(w, e), w.db.rows[i];
    StepKeepsInvariant(w, e);
    RowIsOk(w.db, w.clock, i);
    MarkedDisk(w, e.selected, e.refused, r.file.physical);
    RowsMoveByClass(w, e, i);
    WriteBackMatchesReport(v.db, v.disk, v.clock, later, i);
  }

  /** Main result: as long as the attribute stays, status on any stage leaves the handed-out
      path started: no file of it is failed or completed early. */
  lemma HandedOutStaysStarted(w: World, e: Event, id: StageId, later: Time, i: nat)
    requires WorldOk(w) && e.TakeOver? && Enabled(w, e) && e.now <= later && id in w.db.stages
    requires !w.config.mirrorMode
    requires i < |w.db.rows| && !IsFinal(w.db.rows[i].file.state)
    requires w.db.rows[i].file.physical in HandedOut(e.selected, w.disk) && w.db.rows[i].file.physical !in e.refused
    ensures var v := Apply(w, e); StatusDb(v.db, id, v.disk, later).rows[i].file.state.Started?
  {
    hide Inv;
    var v, p := Apply(w, e), w.db.rows[i].file.physical;
    StepKeepsInvariant(w, e);
    RowsMoveByClass(w, e, i);
    MarkedDisk(w, e.selected, e.refused, p);
    StartedWithRecallStays(v.db, id, v.disk, v.clock, later, i);
  }

  lemma StartedWithRecallStays(db: Db, id: StageId, disk: Disk, clock: Time, now: Time, i: nat)
    requires Inv(db, clock) && clock <= now && id in db.stages && i < |db.rows|
    requires db.rows[i].file.state.Started? && RecallInProgress(disk, db.rows[i].file.physical)
    ensures StatusDb(db, id, disk, now).rows[i].file.state.Started?
  {
    hide Inv;
    VisitedRow(db, id, disk, clock, now, i);
  }

  /** If the service stops after creating the attributes and before the last update, the
      files still submitted become started with the next status on their stage. */
  lemma InterruptedHandOver(w: World, e: Event, later: Time, i: nat)
    requires WorldOk(w) && e.TakeOver? && Enabled(w, e) && w.clock <= later
    requires !w.config.mirrorMode
    requires i < |w.db.rows| && !IsFinal(w.db.rows[i].file.state)
    requires w.db.rows[i].file.physical in HandedOut(e.selected, w.disk) && w.db.rows[i].file.physical !in e.refused
    ensures StatusDb(w.db, w.db.rows[i].stage, MarkRecalls(w, e.selected, e.refused), later).rows[i].file.state.Started?
  {
    hide Inv;
    var r := w.db.rows[i];
    RowIsOk(w.db, w.clock, i);
    MarkedDisk(w, e.selected, e.refused, r.file.physical);
    WriteBackMatchesReport(w.db, MarkRecalls(w, e.selected, e.refused), w.clock, later, i);
  }
}
