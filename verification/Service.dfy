// The tape service: the calls of the API, each proved to be one step of the state machine.
module Service {
  import opened Options
  import opened Paths
  import opened PathLists
  import opened Sorting
  import opened Files
  import opened StageRequests
  import opened Storage
  import opened Tables
  import opened Invariants
  import opened World
  import opened StatusLaws
  import opened InProgressLaws
  import opened Database
  import opened Partitions
  import opened Resolver

  class TapeService {
    const config: Config
    const db: SociDatabase
    const storage: LocalStorage
    var clock: Time

    ghost function Current(): World
      reads this, db, storage`disk
    {
      World(config, db.Contents(), storage.disk, clock)
    }

    ghost predicate Valid()
      reads this, db, storage`disk
    {
      WorldOk(Current())
    }

    constructor (config: Config, storage: LocalStorage, clock: Time)
      requires ValidAreas(config.areas) && 0 < clock
      ensures Valid() && this.storage == storage && fresh(db)
      ensures Current() == World(config, Db(map[], []), storage.disk, clock)
    {
      this.config := config;
      this.storage := storage;
      this.clock := clock;
      this.db := new SociDatabase();
    }

    /** `requested` are the paths of the parsed request: each becomes a submitted file
        without times.  `times` are the clock readings for files that are born failed. */
    method Stage(id: StageId, requested: seq<Path>, created: Time, times: seq<Time>) returns (ok: bool, files: seq<File>)
      requires Valid() && requested != [] && AllWellFormed(requested)
      requires clock <= created && |requested| <= |times| && Readings(created, times)
      modifies this`clock, db
      ensures Valid()
      ensures ok <==> id !in old(db.stages)
      ensures !ok ==> files == [] && db.Contents() == old(db.Contents())
      ensures ok ==> db.rows == old(db.rows) + RowsFor(id, files)
      ensures ok ==> |files| <= |times| && StrictlySorted(Logicals(files))
      ensures ok ==> forall p :: p in Logicals(files) <==> p in requested
      ensures ok ==> var e := Event.Stage(id, created, Logicals(files), times[..|files|]);
                     Enabled(old(Current()), e) && Current() == Apply(old(Current()), e)
    {
      hide Inv, WellFormed;
      ghost var before := Current();
      var paths := SortUnique(requested);
      assert AllWellFormed(paths) by {
        forall i | 0 <= i < |paths| ensures WellFormed(paths[i]) { assert paths[i] in requested; }
      }
      files := NewFiles(paths, times);
      ghost var e := Event.Stage(id, created, paths, times[..|files|]);
      StageIsStep(before, e, files);
      clock := times[|paths| - 1];
      ok := db.Insert(id, Times(created, 0, 0), files);
      if !ok {
        files := [];
      }
    }

    /** One file per path, on the evidence of the storage. */
    method NewFiles(paths: seq<Path>, times: seq<Time>) returns (files: seq<File>)
      requires ValidAreas(config.areas) && |paths| <= |times|
      ensures Logicals(files) == paths
      ensures RowsForNew(files, config, storage.disk, times)
    {
      files := [];
      for i := 0 to |paths|
        invariant |files| == i
        invariant forall k :: 0 <= k < i ==> files[k] == NewFile(config, storage.disk, paths[k], times[k])
      {
        var physical := Resolve(config.areas, paths[i]);
        var regular := storage.IsRegularFile(physical);
        var file := File(paths[i], physical, Submitted, 0, 0);
        if !regular {
          file := file.(state := Failed, startedAt := times[i], finishedAt := times[i]);
        }
        files := files + [file];
      }
    }

    /** Brings the files of a stage up to date with the storage.  The reported stage is what
        the database holds afterwards: the same files, in order of state, and the same times. */
    method Status(id: StageId, now: Time) returns (response: Option<StageRequest>)
      requires Valid() && clock <= now
      modifies this`clock, db, storage`answered
      ensures Valid()
      ensures Current() == Apply(old(Current()), Event.Status(id, now))
      ensures response.None? <==> id !in old(db.stages)
      ensures response.Some? ==>
                && fresh(response.value)
                && id in db.stages
                && multiset(response.value.files) == multiset(FilesOf(db.rows, id))
                && response.value.CurrentTimes() == db.stages[id]
                && SortedBy(response.value.files, StateLeq)
    {
      hide Inv, ValidAreas;
      ghost var before := Current();
      clock := now;
      StatusKeepsInv(before.db, id, before.disk, before.clock, now);
      var found := db.Find(id);
      if found.None? {
        return None;
      }
      var stage := new StageRequest(found.value.times, found.value.files);
      var pairs := RefreshFiles(stage, now);
      StatusReport(before.db, id, before.disk, before.clock, now, stage.files, pairs);
      WriteBack(id, stage, pairs, now);
      response := Some(stage);
    }

    /** Refreshes the timestamps and sends the changes to the database. */
    method WriteBack(id: StageId, stage: StageRequest, pairs: seq<(Path, State)>, now: Time)
      requires id in db.stages && stage.CurrentTimes() == db.stages[id]
      requires stage.files != []
      requires forall f :: f in stage.files && !f.state.Submitted? ==> f.startedAt > 0
      modifies stage, db
      ensures multiset(stage.files) == multiset(old(stage.files)) && SortedBy(stage.files, StateLeq)
      ensures stage.CurrentTimes() == Refreshed(old(stage.CurrentTimes()), old(stage.files))
      ensures db.rows == OnPairs(old(db.rows), pairs, now)
      ensures db.stages == old(db.stages)[id := stage.CurrentTimes()]
    {
      var updated := RefreshTimes(stage);
      var entity := if updated then Some((id, stage.CurrentTimes())) else None;
      db.Update(StageUpdate(entity, pairs, now));
      assert old(db.stages)[id := old(db.stages)[id]] == old(db.stages);
    }

    /** The loop over the files of a stage: their states and times are assigned in memory,
        and the changes are collected for the database. */
    method RefreshFiles(stage: StageRequest, now: Time) returns (pairs: seq<(Path, State)>)
      modifies stage`files, storage`answered
      ensures stage.files == Report(old(stage.files), storage.disk, now)
      ensures pairs == StatusPairs(old(stage.files), storage.disk)
    {
      var files := stage.files;
      pairs := [];
      for i := 0 to |files|
        invariant |stage.files| == |files|
        invariant forall k :: 0 <= k < i ==> stage.files[k] == StatusFile(files[k], Look(storage.disk, files[k].physical), now)
        invariant forall k :: i <= k < |files| ==> stage.files[k] == files[k]
        invariant pairs == StatusPairs(files[..i], storage.disk)
      {
        var file := RefreshFile(files[i], now);
        stage.files := stage.files[i := file];
        assert files[..i + 1][..i] == files[..i];
        if file.state != files[i].state {
          pairs := pairs + [(file.physical, file.state)];
        }
      }
      assert files[..|files|] == files;
    }

    /** Sorts the files by state and refreshes the timestamps. */
    method RefreshTimes(stage: StageRequest) returns (updated: bool)
      requires stage.files != []
      requires forall f :: f in stage.files && !f.state.Submitted? ==> f.startedAt > 0
      modifies stage
      ensures multiset(stage.files) == multiset(old(stage.files)) && SortedBy(stage.files, StateLeq)
      ensures stage.CurrentTimes() == Refreshed(old(stage.CurrentTimes()), old(stage.files))
      ensures !updated ==> stage.CurrentTimes() == old(stage.CurrentTimes())
    {
      StateLeqIsPreorder();
      var sorted := Sort(stage.files, StateLeq);
      RefreshedOfPermutation(stage.CurrentTimes(), stage.files, sorted);
      SameElements(sorted, stage.files);
      stage.files := sorted;
      updated := stage.UpdateTimestamps();
    }

    /** The state of one file in memory, from as few storage queries as possible. */
    method RefreshFile(file: File, now: Time) returns (r: File)
      modifies storage`answered
      ensures forall q :: storage.answered[q] <= old(storage.answered)[q] + if q.path == file.physical then 1 else 0
      ensures r == StatusFile(file, Look(storage.disk, file.physical), now)
      ensures !IsFinal(file.state) ==> Justified(file.state, Look(storage.disk, file.physical), r.state) && Timed(file, r, now)
    {
      hide Justified, Timed;
      if !IsFinal(file.state) { NextIsJustified(file, Look(storage.disk, file.physical), now); }
      var status := new ExtendedFileStatus(storage, file.physical);
      r := file;
      match file.state {
        case Started =>
          var recalled := status.IsInProgress();
          if !recalled {
            var stub := status.IsStub();
            r := file.(state := if stub then Failed else Completed, finishedAt := now);
          }
        case Submitted =>
          var recalled := false;
          if status.error.None? {
            recalled := status.IsInProgress();
          }
          if recalled {
            r := file.(state := Started, startedAt := now);
          } else {
            var onDisk := false;
            if status.error.None? {
              var stub := status.IsStub();
              onDisk := !stub;
            }
            if onDisk {
              r := file.(state := Completed, startedAt := now, finishedAt := now);
            } else if status.error.Some? {
              r := file.(state := Failed, startedAt := now, finishedAt := now);
            }
          }
        case _ =>
      }
    }

    /** Nothing changes unless every requested path is recognised; then exactly the named
        files of the stage become cancelled, whatever their state.  The answer lists the
        requests that are not recognised. */
    method Cancel(id: StageId, paths: seq<Path>, now: Time) returns (invalid: Option<seq<Path>>)
      requires Valid() && clock <= now
      modifies this`clock, db
      ensures Valid()
      ensures Current() == Apply(old(Current()), Event.Cancel(id, paths, now))
      ensures invalid.None? <==> id !in old(db.stages)
      ensures invalid.Some? ==> multiset(invalid.value) == multiset(paths) - multiset(Recognised(old(db.rows), id))
    {
      hide Inv, ValidAreas;
      ghost var before := Current();
      StepKeepsInvariant(before, Event.Cancel(id, paths, now));
      clock := now;
      var found := db.Find(id);
      if found.None? {
        return None;
      }
      var sorted := SortPaths(paths);
      var difference := Difference(sorted, Logicals(found.value.files));
      DifferenceIsMinusRecords(sorted, Logicals(found.value.files));
      ghost var known := multiset(Recognised(before.db.rows, id));
      EmptyDifference(difference, multiset(paths), known);
      if difference != [] {
        return Some(difference);
      }
      db.UpdateLogicals(id, sorted, Cancelled, now);
      OverwriteSorted(before.db.rows, id, paths, sorted, Cancelled, now);
      invalid := Some([]);
    }

    /** Release checks the request like cancel and changes nothing. */
    method Release(id: StageId, paths: seq<Path>) returns (invalid: Option<seq<Path>>)
      requires Valid()
      ensures invalid.None? <==> id !in db.stages
      ensures invalid.Some? ==> multiset(invalid.value) == multiset(paths) - multiset(Recognised(db.rows, id))
    {
      var found := db.Find(id);
      if found.None? {
        return None;
      }
      var sorted := SortPaths(paths);
      var difference := Difference(sorted, Logicals(found.value.files));
      DifferenceIsMinusRecords(sorted, Logicals(found.value.files));
      invalid := Some(difference);
    }

    method Erase(id: StageId) returns (erased: bool)
      requires Valid()
      modifies db
      ensures Valid()
      ensures erased <==> id in old(db.stages)
      ensures Current() == Apply(old(Current()), Event.Erase(id))
    {
      StepKeepsInvariant(Current(), Event.Erase(id));
      erased := db.Erase(id);
    }

    method ReadyTakeOver() returns (n: nat)
      ensures n == |ReadyPaths(db.rows)|
    {
      n := db.CountFiles(Submitted);
    }

    /** Selects ready paths, moves the rows of each class to the state of the class, and hands
        out the paths that need a recall, after creating their recall attributes. */
    method TakeOver(limit: nat, refused: set<Path>, now: Time) returns (paths: seq<Path>, ghost selected: seq<Path>)
      requires Valid() && 1 <= limit && clock <= now
      modifies this`clock, db, storage
      ensures Valid()
      ensures Enabled(old(Current()), Event.TakeOver(limit, selected, refused, now))
      ensures Current() == Apply(old(Current()), Event.TakeOver(limit, selected, refused, now))
      ensures Distinct(paths)
      ensures forall p :: p in paths <==> p in HandedOut(selected, old(storage.disk))
    {
      hide Inv, ValidAreas;
      ghost var before := Current();
      var ready := db.GetFiles(Submitted, limit);
      selected := ready;
      StepKeepsInvariant(before, Event.TakeOver(limit, selected, refused, now));
      clock := now;
      paths := HandOver(ready, refused, now);
    }

    /** Classifies the selected paths and updates storage and database class by class. */
    method HandOver(selected: seq<Path>, refused: set<Path>, now: Time) returns (paths: seq<Path>)
      requires Distinct(selected)
      modifies db`rows, storage
      ensures db.rows == Retarget(old(db.rows), TakeOverTargets(selected, old(storage.disk)), now)
      ensures storage.disk == if config.mirrorMode then old(storage.disk)
                              else WithRecall(old(storage.disk), HandedOut(selected, old(storage.disk)) - refused)
      ensures Distinct(paths)
      ensures forall p :: p in paths <==> p in HandedOut(selected, old(storage.disk))
    {
      hide Retarget, ClassOf, WithRecall;
      ghost var disk, rows := storage.disk, db.rows;
      var recalling, needRecall, onDisk, theRest := Classify(storage, selected);
      ClassesAreSets(selected, recalling, needRecall, onDisk, theRest);
      db.UpdatePaths(recalling, Started, now);
      db.UpdatePaths(onDisk, Completed, now);
      db.UpdatePaths(theRest, Failed, now);
      paths := needRecall;
      if !config.mirrorMode {
        CreateAttributes(paths, refused);
        assert Marked(paths, refused) == HandedOut(selected, disk) - refused;
      }
      db.UpdatePaths(paths, Started, now);
      FourMovesAreOne(rows, selected, disk, recalling, needRecall, onDisk, theRest, now);
    }

    /** Marks each path as being recalled; a refusal is only logged. */
    method CreateAttributes(paths: seq<Path>, refused: set<Path>)
      modifies storage`disk
      ensures storage.disk == WithRecall(old(storage.disk), Marked(paths, refused))
    {
      ghost var disk := storage.disk;
      for i := 0 to |paths|
        invariant storage.disk == WithRecall(disk, Marked(paths[..i], refused))
      {
        storage.CreateRecallAttribute(paths[i], paths[i] in refused);
        OneMoreRecall(disk, paths, i, refused);
      }
      assert paths[..|paths|] == paths;
    }

    /** The started files of one stage after bringing it up to date. */
    method PathsInProgress(id: StageId, now: Time) returns (paths: seq<Path>)
      requires Valid() && clock <= now && id in db.stages
      modifies this`clock, db, storage`answered
      ensures Valid()
      ensures Current() == Apply(old(Current()), Event.Status(id, now))
      ensures forall p :: p in paths <==> HasRow(db.rows, id, p, Started)
    {
      var response := Status(id, now);
      var stage := response.value;
      StartedAreListed(db.rows, id, stage.files);
      if stage.completedAt != 0 {
        CompletedHasNoStarted(db.Contents(), id, clock);
        return [];
      }
      paths := StartedPaths(stage.files);
    }

    /** `std::equal_range` for the started files of a list sorted by state. */
    method StartedPaths(files: seq<File>) returns (paths: seq<Path>)
      requires SortedBy(files, StateLeq)
      ensures forall p :: p in paths <==> exists k :: 0 <= k < |files| && files[k].physical == p && files[k].state.Started?
    {
      var first := PartitionPoint(files, Underlying(Started));
      var last := PartitionPoint(files, Underlying(Started) + 1);
      assert first <= last by {
        if first > 0 { assert Underlying(files[first - 1].state) < Underlying(Started); }
      }
      paths := [];
      for k := first to last
        invariant forall p :: p in paths <==> exists j :: first <= j < k && files[j].physical == p
      {
        paths := paths + [files[k].physical];
      }
    }

    /** Main result: a strictly sorted list of the paths with a started row afterwards, which
        are the paths with a row not final and a recall in progress before. */
    method InProgress(times: seq<Time>) returns (paths: seq<Path>, ghost visited: seq<StageId>)
      requires Valid() && |db.stages| <= |times| && Readings(clock, times)
      modifies this`clock, db, storage`answered
      ensures Valid()
      ensures |visited| <= |times| && Distinct(visited) && Incomplete(old(db.Contents()), visited)
      ensures Current() == old(Current()).(db := VisitAll(old(db.Contents()), storage.disk, visited, times),
                                           clock := LastReading(old(clock), visited, times))
      ensures StrictlySorted(paths)
      ensures forall p :: p in paths <==> p in PathsIn(db.rows, Started)
      ensures forall p :: p in paths <==> AwaitedByAny(old(db.rows), storage.disk, p)
    {
      hide Inv, ValidAreas;
      var ids := db.FindIncompleteStages();
      DistinctSize(ids);
      SubsetSize((set id | id in ids), db.stages.Keys);
      visited := ids;
      ghost var before := Current();
      var all := VisitStages(ids, times);
      paths := SortUnique(all);
      InProgressAnswer(before, ids, times, all, paths);
    }

    /** The reduction over the stages, from left to right. */
    method VisitStages(ids: seq<StageId>, times: seq<Time>) returns (all: seq<Path>)
      requires Valid() && |ids| <= |times| && Readings(clock, times)
      requires forall k :: 0 <= k < |ids| ==> ids[k] in db.stages
      modifies this`clock, db, storage`answered
      ensures Valid()
      ensures Current() == old(Current()).(db := VisitAll(old(db.Contents()), storage.disk, ids, times),
                                           clock := LastReading(old(clock), ids, times))
      ensures forall p :: p in all <==> AwaitedAmong(old(db.rows), storage.disk, ids, p)
      decreases |ids|
    {
      hide Inv, ValidAreas;
      if ids == [] {
        return [];
      }
      ghost var w := Current();
      var n := |ids| - 1;
      all := VisitStages(ids[..n], times);
      VisitAllOk(w.db, w.disk, w.clock, ids[..n], times);
      var some := PathsInProgress(ids[n], times[n]);
      StartedNext(w.db, w.disk, w.clock, ids, times, some);
      AwaitedNext(w.db.rows, w.disk, ids, all, some);
      all := all + some;
    }
  }

  /** `std::sort`, `std::unique` and `erase` on paths. */
  method SortUnique(paths: seq<Path>) returns (r: seq<Path>)
    ensures StrictlySorted(r) && |r| <= |paths|
    ensures forall p :: p in r <==> p in paths
    ensures paths != [] ==> r != []
  {
    var sorted := SortPaths(paths);
    UniqueSorted(sorted);
    r := Unique(sorted);
    forall p ensures p in sorted <==> p in paths {
      assert p in sorted <==> p in multiset(sorted);
      assert p in paths <==> p in multiset(paths);
    }
    assert |sorted| == |multiset(sorted)| == |multiset(paths)| == |paths|;
  }

  // ---- Small facts the calls rely on ----

  ghost predicate RowsForNew(files: seq<File>, config: Config, disk: Disk, times: seq<Time>)
    requires ValidAreas(config.areas)
  {
    |files| <= |times| && forall k :: 0 <= k < |files| ==> files[k] == NewFile(config, disk, files[k].logical, times[k])
  }

  /** The insertion succeeds for a fresh identifier, and is then a step of the machine. */
  lemma StageIsStep(w: World, e: Event, files: seq<File>)
    requires WorldOk(w) && e.Stage? && StrictlySorted(e.logicals) && e.logicals != [] && AllWellFormed(e.logicals)
    requires Logicals(files) == e.logicals && |e.times| == |files|
    requires RowsForNew(files, w.config, w.disk, e.times)
    requires w.clock <= e.created && Readings(e.created, e.times)
    ensures Distinct(Logicals(files))
    ensures Inv(w.db, e.times[|e.times| - 1])
    ensures e.id !in w.db.stages ==>
              && Enabled(w, e) && WorldOk(Apply(w, e))
              && (forall p :: !KeyTaken(w.db.rows, e.id, p))
              && RowsFor(e.id, files) == NewRows(w.config, w.disk, e.id, e.logicals, e.times)
  {
    hide WellFormed;
    var n := |e.times| - 1;
    forall i, j | 0 <= i < j < |files| ensures Logicals(files)[i] != Logicals(files)[j] {
      PathTotal(e.logicals[i], e.logicals[j]);
    }
    InvLater(w.db, w.clock, e.times[n]);
    if e.id !in w.db.stages {
      NoRowsYet(w.db, w.clock, e.id);
      forall i | 0 <= i < |e.times| ensures e.created <= e.times[i] <= e.times[n] {}
      StepKeepsInvariant(w, e);
    }
  }

  /** The started paths of the stage visited last, seen from the beginning. */
  lemma StartedNext(db: Db, disk: Disk, clock: Time, ids: seq<StageId>, times: seq<Time>, some: seq<Path>)
    requires Inv(db, clock) && 1 <= |ids| <= |times| && Readings(clock, times)
    requires forall k :: 0 <= k < |ids| ==> ids[k] in db.stages
    requires forall p :: p in some <==> HasRow(VisitAll(db, disk, ids, times).rows, ids[|ids| - 1], p, Started)
    ensures forall p :: p in some <==> Awaited(db.rows, ids[|ids| - 1], disk, p)
  {
    forall p ensures p in some <==> Awaited(db.rows, ids[|ids| - 1], disk, p) {
      StartedWhenVisited(db, disk, clock, ids, times, p);
    }
  }

  ghost predicate AwaitedAmong(rows: seq<Row>, disk: Disk, ids: seq<StageId>, p: Path) {
    exists k :: 0 <= k < |ids| && Awaited(rows, ids[k], disk, p)
  }

  lemma AwaitedNext(rows: seq<Row>, disk: Disk, ids: seq<StageId>, all: seq<Path>, some: seq<Path>)
    requires ids != []
    requires forall p :: p in all <==> AwaitedAmong(rows, disk, ids[..|ids| - 1], p)
    requires forall p :: p in some <==> Awaited(rows, ids[|ids| - 1], disk, p)
    ensures forall p :: p in all + some <==> AwaitedAmong(rows, disk, ids, p)
  {
    var n := |ids| - 1;
    forall p ensures p in all + some <==> AwaitedAmong(rows, disk, ids, p) {
      assert p in all + some <==> p in all || p in some;
      if AwaitedAmong(rows, disk, ids[..n], p) {
        var k :| 0 <= k < n && Awaited(rows, ids[..n][k], disk, p);
        assert ids[k] == ids[..n][k];
      }
      if AwaitedAmong(rows, disk, ids, p) {
        var k :| 0 <= k < |ids| && Awaited(rows, ids[k], disk, p);
        assert k < n ==> ids[..n][k] == ids[k];
      }
    }
  }

  lemma InProgressAnswer(w: World, ids: seq<StageId>, times: seq<Time>, all: seq<Path>, paths: seq<Path>)
    requires WorldOk(w) && |ids| <= |times| && Readings(w.clock, times) && Incomplete(w.db, ids)
    requires forall p :: p in all <==> AwaitedAmong(w.db.rows, w.disk, ids, p)
    requires forall p :: p in paths <==> p in all
    ensures forall p :: p in paths <==> AwaitedByAny(w.db.rows, w.disk, p)
    ensures forall p :: p in paths <==> p in PathsIn(VisitAll(w.db, w.disk, ids, times).rows, Started)
  {
    forall p
      ensures p in paths <==> AwaitedByAny(w.db.rows, w.disk, p)
      ensures p in paths <==> p in PathsIn(VisitAll(w.db, w.disk, ids, times).rows, Started)
    {
      AwaitedBySomeVisited(w.db, w.disk, w.clock, ids, p);
      StartedPathsAreAwaited(w.db, w.disk, w.clock, ids, times, p);
    }
  }

  lemma NoRowsYet(db: Db, clock: Time, id: StageId)
    requires Inv(db, clock)
    ensures id !in db.stages ==> forall p :: !KeyTaken(db.rows, id, p)
  {
    forall i | 0 <= i < |db.rows| ensures db.rows[i].stage in db.stages {
      assert RowOk(db.rows[i], db.stages, clock);
    }
  }

  lemma StateLeqIsPreorder()
    ensures TotalPreorder(StateLeq)
  {
  }

  lemma EmptyDifference<T>(d: seq<T>, a: multiset<T>, b: multiset<T>)
    requires multiset(d) == a - b
    ensures d == [] <==> a <= b
  {
    if d == [] {
      NoneMissing(a, b);
    } else {
      assert d[0] in multiset(d);
    }
  }

  lemma OverwriteSorted(rows: seq<Row>, id: StageId, paths: seq<Path>, sorted: seq<Path>, s: State, now: Time)
    requires multiset(sorted) == multiset(paths) && IsFinal(s)
    ensures OnLogicals(rows, id, sorted, s, now) == Overwrite(rows, id, paths, s, now)
  {
    OverwriteBatch(rows, id, sorted, s, now);
    forall p ensures p in sorted <==> p in paths {
      assert p in sorted <==> p in multiset(sorted);
      assert p in paths <==> p in multiset(paths);
    }
  }

  /** The files status holds in memory satisfy what the refresh of the timestamps asserts. */
  lemma AfterStatus(db: Db, id: StageId, disk: Disk, clock: Time, now: Time)
    requires Inv(db, clock) && clock <= now && id in db.stages
    ensures var files := FilesOf(StatusRows(db.rows, id, disk, now), id);
            files != [] && forall f :: f in files && !f.state.Submitted? ==> f.startedAt > 0
  {
    var rows := StatusRows(db.rows, id, disk, now);
    RetargetEvolves(db, StatusTargets(db.rows, id, disk), clock, now);
    InvEvolves(db, rows, clock, now);
    assert StageOk(rows, id, db.stages[id], now);
    StagePresent(rows, id);
    FilesHaveTimes(Db(db.stages, rows), id, now);
  }

  /** What status computed in memory is what the write-back leaves in the database. */
  lemma StatusReport(db: Db, id: StageId, disk: Disk, clock: Time, now: Time, files: seq<File>, pairs: seq<(Path, State)>)
    requires Inv(db, clock) && clock <= now && id in db.stages
    requires files == Report(FilesOf(db.rows, id), disk, now)
    requires pairs == StatusPairs(FilesOf(db.rows, id), disk)
    ensures OnPairs(db.rows, pairs, now) == StatusRows(db.rows, id, disk, now)
    ensures files == FilesOf(StatusRows(db.rows, id, disk, now), id)
    ensures files != [] && forall f :: f in files && !f.state.Submitted? ==> f.startedAt > 0
  {
    hide Inv;
    ReportIsStored(db, id, disk, clock, now);
    StatusBatch(db, id, FilesOf(db.rows, id), disk, clock, now);
    AfterStatus(db, id, disk, clock, now);
  }

  lemma CompletedHasNoStarted(db: Db, id: StageId, clock: Time)
    requires Inv(db, clock) && id in db.stages && db.stages[id].completedAt != 0
    ensures forall p :: !HasRow(db.rows, id, p, Started)
  {
    assert StageOk(db.rows, id, db.stages[id], clock);
  }

  lemma StartedAreListed(rows: seq<Row>, id: StageId, files: seq<File>)
    requires multiset(files) == multiset(FilesOf(rows, id))
    ensures forall p :: HasRow(rows, id, p, Started) <==>
              exists k :: 0 <= k < |files| && files[k].physical == p && files[k].state.Started?
  {
    SameElements(files, FilesOf(rows, id));
    forall p ensures HasRow(rows, id, p, Started) <==>
              exists k :: 0 <= k < |files| && files[k].physical == p && files[k].state.Started?
    {
      if HasRow(rows, id, p, Started) {
        var i :| 0 <= i < |rows| && rows[i].stage == id && rows[i].file.physical == p && rows[i].file.state == Started;
        RowIsListed(rows, id, i);
        var k :| 0 <= k < |files| && files[k] == rows[i].file;
      }
      if k :| 0 <= k < |files| && files[k].physical == p && files[k].state.Started? {
        assert files[k] in files;
        ListedIsRow(rows, id, files[k]);
      }
    }
  }

  function Marked(paths: seq<Path>, refused: set<Path>): set<Path> {
    set p | p in paths && p !in refused
  }

  lemma OneMoreRecall(disk: Disk, paths: seq<Path>, i: nat, refused: set<Path>)
    requires i < |paths|
    ensures WithRecall(disk, Marked(paths[..i + 1], refused)) ==
            if paths[i] in refused then WithRecall(disk, Marked(paths[..i], refused))
            else WithRecall(WithRecall(disk, Marked(paths[..i], refused)), {paths[i]})
  {
    assert paths[..i + 1] == paths[..i] + [paths[i]];
    var sofar, next := Marked(paths[..i], refused), Marked(paths[..i + 1], refused);
    assert next == if paths[i] in refused then sofar else sofar + {paths[i]};
  }

  /** The classes contain distinct paths, are disjoint, and together are the selection. */
  lemma ClassesAreSets(all: seq<Path>, a: seq<Path>, b: seq<Path>, c: seq<Path>, d: seq<Path>)
    requires Distinct(all) && multiset(all) == multiset(a + b + c + d)
    ensures Distinct(b)
    ensures forall p :: p in all <==> p in a || p in b || p in c || p in d
  {
    var s := a + b + c + d;
    DistinctOfPermutation(all, s);
    forall i, j | 0 <= i < j < |b| ensures b[i] != b[j] {
      assert s[|a| + i] == b[i] && s[|a| + j] == b[j];
    }
    forall p ensures p in all <==> p in a || p in b || p in c || p in d {
      assert p in all <==> p in multiset(all);
      assert p in s <==> p in multiset(s);
    }
  }

  function Uniform(paths: seq<Path>, s: State): map<Path, State> {
    map p | p in paths :: s
  }

  lemma FourRetargets(rows: seq<Row>, t1: map<Path, State>, t2: map<Path, State>, t3: map<Path, State>, t4: map<Path, State>, now: Time)
    requires t1.Keys !! t2.Keys && (t1 + t2).Keys !! t3.Keys && (t1 + t2 + t3).Keys !! t4.Keys
    ensures Retarget(Retarget(Retarget(Retarget(rows, t1, now), t2, now), t3, now), t4, now) == Retarget(rows, t1 + t2 + t3 + t4, now)
  {
    hide Retarget;
    RetargetTwice(rows, t1, t2, now);
    RetargetTwice(rows, t1 + t2, t3, now);
    RetargetTwice(rows, t1 + t2 + t3, t4, now);
  }

  lemma TargetsByClass(selected: seq<Path>, disk: Disk,
                       recalling: seq<Path>, needRecall: seq<Path>, onDisk: seq<Path>, theRest: seq<Path>)
    requires forall p :: p in recalling <==> p in selected && ClassOf(Look(disk, p)) == Recalling
    requires forall p :: p in needRecall <==> p in selected && ClassOf(Look(disk, p)) == NeedsRecall
    requires forall p :: p in onDisk <==> p in selected && ClassOf(Look(disk, p)) == AlreadyOnDisk
    requires forall p :: p in theRest <==> p in selected && ClassOf(Look(disk, p)) == Hopeless
    ensures Uniform(recalling, Started) + Uniform(onDisk, Completed) + Uniform(theRest, Failed) + Uniform(needRecall, Started)
            == TakeOverTargets(selected, disk)
  {
    hide ClassOf, Look;
  }

  /** The four batches, class by class, are one simultaneous move of the selected paths. */
  lemma FourMovesAreOne(rows: seq<Row>, selected: seq<Path>, disk: Disk,
                        recalling: seq<Path>, needRecall: seq<Path>, onDisk: seq<Path>, theRest: seq<Path>, now: Time)
    requires forall p :: p in recalling <==> p in selected && ClassOf(Look(disk, p)) == Recalling
    requires forall p :: p in needRecall <==> p in selected && ClassOf(Look(disk, p)) == NeedsRecall
    requires forall p :: p in onDisk <==> p in selected && ClassOf(Look(disk, p)) == AlreadyOnDisk
    requires forall p :: p in theRest <==> p in selected && ClassOf(Look(disk, p)) == Hopeless
    ensures var one := Retarget(rows, Uniform(recalling, Started), now);
            var two := Retarget(one, Uniform(onDisk, Completed), now);
            var three := Retarget(two, Uniform(theRest, Failed), now);
            Retarget(three, Uniform(needRecall, Started), now) == Retarget(rows, TakeOverTargets(selected, disk), now)
  {
    var t1, t2, t3, t4 := Uniform(recalling, Started), Uniform(onDisk, Completed), Uniform(theRest, Failed), Uniform(needRecall, Started);
    hide Retarget, ClassOf, Look;
    assert t1.Keys !! t2.Keys && (t1 + t2).Keys !! t3.Keys && (t1 + t2 + t3).Keys !! t4.Keys;
    TargetsByClass(selected, disk, recalling, needRecall, onDisk, theRest);
    FourRetargets(rows, t1, t2, t3, t4, now);
  }
}
