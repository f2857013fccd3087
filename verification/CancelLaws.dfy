// Cancel and release: when the check of the requested paths is what it is meant to be.
module CancelLaws {
  import opened Paths
  import opened PathLists
  import opened Files
  import opened Tables
  import opened Invariants
  import opened World

  ghost predicate NoClash(paths: seq<Path>) {
    forall i, j :: 0 <= i < j < |paths| ==> !Clash(paths[i], paths[j])
  }

  /** The order by text of the database is the order of paths exactly when no two paths clash. */
  lemma TextOrderIsPathOrder(files: seq<File>)
    requires TextSorted(files) && Distinct(Logicals(files)) && AllWellFormed(Logicals(files))
    ensures Sorted(Logicals(files)) <==> NoClash(Logicals(files))
  {
    var b := Logicals(files);
    forall i, j | 0 <= i < j < |b| ensures PathLeq(b[i], b[j]) <==> !Clash(b[i], b[j]) {
      OrderBridge(b[i], b[j]);
      PathTotal(b[i], b[j]);
      assert !TextLess(files[j].logical, files[i].logical);
    }
  }

  /** What the check should report for a sorted request: the paths that are not files of the
      stage, and repeated requests. */
  ghost predicate ChecksExactly(files: seq<Path>) {
    forall request :: Sorted(request) ==> multiset(Difference(request, files)) == multiset(request) - multiset(files)
  }

  lemma LogicalsWellFormed(db: Db, clock: Time, id: StageId)
    requires Inv(db, clock)
    ensures AllWellFormed(Logicals(FilesOf(db.rows, id)))
  {
    hide WellFormed;
    var files := FilesOf(db.rows, id);
    forall k | 0 <= k < |files| ensures WellFormed(files[k].logical) {
      ListedIsRow(db.rows, id, files[k]);
      var i :| 0 <= i < |db.rows| && db.rows[i].stage == id && db.rows[i].file == files[k];
      RowIsOk(db, clock, i);
    }
  }

  /** Main result: for the files of a stage, the check of cancel and release is exact for
      every request if and only if no two of their logical paths clash. */
  lemma CheckExactIffNoClash(db: Db, clock: Time, id: StageId)
    requires Inv(db, clock)
    ensures ChecksExactly(Logicals(FilesOf(db.rows, id))) <==> NoClash(Logicals(FilesOf(db.rows, id)))
  {
    var files := FilesOf(db.rows, id);
    FilesOfSorted(db.rows, id);
    LogicalsWellFormed(db, clock, id);
    TextOrderIsPathOrder(files);
    DifferenceExactIffSorted(Logicals(files));
  }

  /** In particular whenever all names of absolute paths use bytes above the separator. */
  lemma HighBytesCheckExactly(db: Db, clock: Time, id: StageId)
    requires Inv(db, clock)
    requires forall k :: 0 <= k < |FilesOf(db.rows, id)| ==> HighBytes(FilesOf(db.rows, id)[k].logical)
    ensures ChecksExactly(Logicals(FilesOf(db.rows, id)))
  {
    var b := Logicals(FilesOf(db.rows, id));
    forall i, j | 0 <= i < j < |b| ensures !Clash(b[i], b[j]) {
      assert HighBytes(b[i]) && HighBytes(b[j]);
      HighBytesNeverClash(b[i].names, b[j].names);
    }
    CheckExactIffNoClash(db, clock, id);
  }

  ghost predicate HighBytes(p: Path) {
    p.absolute && forall n, c :: n in p.names && c in n ==> c > SLASH
  }

  /** Main result: cancel goes through exactly for duplicate-free requests for files that no
      earlier file of the stage exceeds; then exactly the named files of that stage become
      cancelled and nothing else changes. */
  lemma CancelEffect(db: Db, clock: Time, id: StageId, paths: seq<Path>, now: Time)
    requires Inv(db, clock) && clock <= now && id in db.stages
    ensures var accepted := Distinct(paths) && forall p :: p in paths ==> p in Recognised(db.rows, id);
            var next := CancelDb(db, id, paths, now);
            && next.stages == db.stages && |next.rows| == |db.rows|
            && (!accepted ==> next == db)
            && (accepted ==> forall i :: 0 <= i < |db.rows| ==>
                  if db.rows[i].stage == id && db.rows[i].file.logical in paths
                  then next.rows[i].stage == id && CancelledFrom(db.rows[i].file, next.rows[i].file, now)
                  else next.rows[i] == db.rows[i])
  {
    RecognisedDistinct(db.rows, id);
    SubsetOfDistinct(paths, Recognised(db.rows, id));
    hide Inv, Recognised, Distinct, Moved;
    forall i | 0 <= i < |db.rows| ensures CancelledFrom(db.rows[i].file, Moved(db.rows[i].file, Cancelled, now), now) {
      RowIsOk(db, clock, i);
      CancelledFile(db.rows[i].file, clock, now);
    }
  }

  /** A file and what a cancel makes of it. */
  predicate CancelledFrom(f: File, g: File, now: Time) {
    && g.state == Cancelled && g.finishedAt == now
    && g.logical == f.logical && g.physical == f.physical
    && g.startedAt == (if f.state.Submitted? then now else f.startedAt)
  }

  lemma CancelledFile(f: File, clock: Time, now: Time)
    requires 0 < clock && LifeCycle(f, clock)
    ensures CancelledFrom(f, Moved(f, Cancelled, now), now)
  {
  }

  lemma {:induction false} RecordsWithin(b: seq<Path>, top: seq<Path>, x: Path)
    requires |top| <= 1
    ensures multiset(RecordsFrom(b, top))[x] <= multiset(b)[x]
  {
    if b != [] {
      assert b == [b[0]] + b[1..];
      RecordsWithin(b[1..], if top != [] && PathLess(b[0], top[0]) then top else [b[0]], x);
    }
  }

  lemma RecognisedDistinct(rows: seq<Row>, id: StageId)
    requires UniqueKeys(rows)
    ensures forall x :: multiset(Recognised(rows, id))[x] <= 1
  {
    var b := Logicals(FilesOf(rows, id));
    FilesOfSorted(rows, id);
    DistinctAsCounts(b);
    forall x ensures multiset(Records(b))[x] <= 1 {
      RecordsWithin(b, [], x);
    }
  }

  lemma SubsetOfDistinct(a: seq<Path>, b: seq<Path>)
    requires forall x :: multiset(b)[x] <= 1
    ensures multiset(a) <= multiset(b) <==> Distinct(a) && forall p :: p in a ==> p in b
  {
    DistinctAsCounts(a);
    assert forall p :: p in a <==> multiset(a)[p] >= 1;
    assert forall p :: p in b <==> multiset(b)[p] >= 1;
    if Distinct(a) && forall p :: p in a ==> p in b {
      forall x ensures multiset(a)[x] <= multiset(b)[x] {
        assert x in a <==> x in multiset(a);
      }
    }
    if multiset(a) <= multiset(b) {
      forall x ensures multiset(a)[x] <= 1 {
        assert multiset(a)[x] <= multiset(b)[x];
      }
      forall p | p in a ensures p in b {
        assert multiset(a)[p] <= multiset(b)[p];
      }
    }
  }

  /** Two distinct paths, each listed once and in the order of their texts. */
  lemma TwoFiles(files: seq<File>, p: Path, q: Path)
    requires TextSorted(files) && Distinct(Logicals(files)) && TextLess(p, q) && p != q
    requires forall x :: x in Logicals(files) <==> x == p || x == q
    ensures Logicals(files) == [p, q]
  {
    hide TextLess;
    var b := Logicals(files);
    assert p in b && q in b;
    DistinctSize(b);
    assert (set x | x in b) == {p, q};
    assert |b| == 2 && b[0] in b && b[1] in b;
    assert !TextLess(files[1].logical, files[0].logical);
  }

  /** A path that follows a greater one is no record, and the walk reports it. */
  lemma SmallerIsLost(p: Path, q: Path)
    requires PathLess(q, p)
    ensures Records([p, q]) == [p]
    ensures Difference([q], [p, q]) == [q]
  {
    var b := [p, q];
    assert b[1..] == [q] && [q][1..] == [];
    assert RecordsFrom([q], [p]) == RecordsFrom([], [p]);
    assert Difference([q], b) == [q] + Difference([], b);
  }

  /** A stage with the files "/a-b" and "/a/b" refuses to cancel the second one, and names it
      as not its own. */
  lemma ClashRefusesMember(db: Db, clock: Time, id: StageId, now: Time, dash: Path, slash: Path)
    requires dash == Path(true, [[97, 45, 98]]) && slash == Path(true, [[97], [98]])
    requires Inv(db, clock)
    requires forall p :: p in Logicals(FilesOf(db.rows, id)) <==> p == dash || p == slash
    ensures CancelDb(db, id, [slash], now) == db
    ensures Difference([slash], Logicals(FilesOf(db.rows, id))) == [slash]
  {
    DashClashes(dash, slash);
    hide TextLess, PathLess, Records, Difference;
    FilesOfSorted(db.rows, id);
    TwoFiles(FilesOf(db.rows, id), dash, slash);
    SmallerIsLost(dash, slash);
    assert multiset([dash])[slash] == 0 && multiset([slash])[slash] == 1;
  }
}
