// Stage and erase: what is inserted is found again, and erasing it restores the tables.
module StageLaws {
  import opened Paths
  import opened PathLists
  import opened Files
  import opened Storage
  import opened Resolver
  import opened Tables
  import opened Invariants
  import opened World
  import opened Database

  ghost predicate NoRowsOf(rows: seq<Row>, id: StageId) {
    forall i :: 0 <= i < |rows| ==> rows[i].stage != id
  }

  lemma RowsForCons(id: StageId, head: File, rest: seq<File>)
    ensures RowsFor(id, [head] + rest) == [Row(id, head)] + RowsFor(id, rest)
  {
  }

  lemma {:induction false} FilesOfFresh(files: seq<File>, id: StageId)
    ensures multiset(FilesOf(RowsFor(id, files), id)) == multiset(files)
  {
    hide TextLess;
    if files == [] {
      assert RowsFor(id, files) == [];
    } else {
      var head, rest := files[0], files[1..];
      FilesOfFresh(rest, id);
      assert files == [head] + rest;
      RowsForCons(id, head, rest);
      FilesOfCons(Row(id, head), RowsFor(id, rest), id);
    }
  }

  /** The query of a stage skips the rows of other stages, wherever they are. */
  lemma {:induction false} FilesOfOthers(rows: seq<Row>, more: seq<Row>, id: StageId)
    requires NoRowsOf(more, id)
    ensures FilesOf(rows + more, id) == FilesOf(rows, id)
  {
    hide TextLess;
    if rows == [] {
      assert rows + more == more;
      if more != [] {
        FilesOfOthers([], more[1..], id);
        assert [] + more[1..] == more[1..];
      }
    } else {
      FilesOfOthers(rows[1..], more, id);
      assert (rows + more)[1..] == rows[1..] + more;
    }
  }

  lemma {:induction false} FilesOfAppended(rows: seq<Row>, more: seq<Row>, id: StageId)
    requires NoRowsOf(rows, id)
    ensures FilesOf(rows + more, id) == FilesOf(more, id)
  {
    hide TextLess;
    if rows == [] {
      assert rows + more == more;
    } else {
      FilesOfAppended(rows[1..], more, id);
      assert (rows + more)[1..] == rows[1..] + more;
    }
  }

  lemma {:induction false} ErasedAppended(rows: seq<Row>, more: seq<Row>, id: StageId)
    requires NoRowsOf(rows, id) && forall i :: 0 <= i < |more| ==> more[i].stage == id
    ensures Erased(rows + more, id) == rows
  {
    if rows != [] {
      ErasedAppended(rows[1..], more, id);
      assert (rows + more)[1..] == rows[1..] + more;
    } else {
      assert rows + more == more;
      if more != [] {
        ErasedAppended([], more[1..], id);
        assert [] + more[1..] == more[1..];
      }
    }
  }

  lemma FreshHasNoRows(db: Db, clock: Time, id: StageId)
    requires Inv(db, clock) && id !in db.stages
    ensures NoRowsOf(db.rows, id)
  {
    forall i | 0 <= i < |db.rows| ensures db.rows[i].stage != id {
      assert RowOk(db.rows[i], db.stages, clock);
    }
  }

  /** Main result: what a stage call stores.  The other rows and stages stay; the new stage has
      no times but its creation; and each requested path, in order, gets a row with the path it
      resolves to, submitted without times exactly if that is a regular file, else failed. */
  lemma StagedRows(w: World, e: Event, i: nat)
    requires WorldOk(w) && e.Stage? && Enabled(w, e) && i < |e.logicals|
    ensures var next, n := Apply(w, e).db, |w.db.rows|;
            && next.stages == w.db.stages[e.id := Times(e.created, 0, 0)]
            && |next.rows| == n + |e.logicals| && next.rows[..n] == w.db.rows
            && var f := next.rows[n + i].file;
               && next.rows[n + i].stage == e.id
               && f.logical == e.logicals[i] && f.physical == Resolve(w.config.areas, e.logicals[i])
               && (f.state == Submitted <==> Look(w.disk, f.physical).regular)
               && (f.state == Failed <==> !Look(w.disk, f.physical).regular)
               && (f.state == Submitted ==> f.startedAt == f.finishedAt == 0)
               && (f.state == Failed ==> f.startedAt == f.finishedAt == e.times[i])
  {
    hide Inv, Resolve, Look, AllWellFormed, StrictlySorted;
  }

  /** The rows inserted by a stage call, as files. */
  function Inserted(w: World, e: Event): (files: seq<File>)
    requires WorldOk(w) && e.Stage? && |e.logicals| <= |e.times|
    ensures RowsFor(e.id, files) == NewRows(w.config, w.disk, e.id, e.logicals, e.times)
    ensures Logicals(files) == e.logicals
  {
    seq(|e.logicals|, i requires 0 <= i < |e.logicals| => NewFile(w.config, w.disk, e.logicals[i], e.times[i]))
  }

  /** Main result: after stage, the query finds a permutation of the inserted files, and the
      files of every other stage are as before. */
  lemma StageRoundTrip(w: World, e: Event, other: StageId)
    requires WorldOk(w) && e.Stage? && Enabled(w, e)
    ensures var rows := Apply(w, e).db.rows;
            && multiset(FilesOf(rows, e.id)) == multiset(Inserted(w, e))
            && TextSorted(FilesOf(rows, e.id)) && Distinct(Logicals(FilesOf(rows, e.id)))
            && (other != e.id ==> FilesOf(rows, other) == FilesOf(w.db.rows, other))
  {
    hide TextLess;
    var files := Inserted(w, e);
    FreshHasNoRows(w.db, w.clock, e.id);
    FilesOfAppended(w.db.rows, RowsFor(e.id, files), e.id);
    FilesOfFresh(files, e.id);
    StepKeepsInvariant(w, e);
    FilesOfSorted(Apply(w, e).db.rows, e.id);
    if other != e.id {
      FilesOfOthers(w.db.rows, RowsFor(e.id, files), other);
    }
  }

  /** Main result: erasing a stage right after inserting it restores both tables. */
  lemma EraseUndoesStage(w: World, e: Event)
    requires WorldOk(w) && e.Stage? && Enabled(w, e)
    ensures EraseDb(Apply(w, e).db, e.id) == w.db
  {
    hide Inv, NewFile, StrictlySorted, AllWellFormed;
    FreshHasNoRows(w.db, w.clock, e.id);
    ErasedAppended(w.db.rows, NewRows(w.config, w.disk, e.id, e.logicals, e.times), e.id);
    assert w.db.stages[e.id := Times(e.created, 0, 0)] - {e.id} == w.db.stages;
  }

  lemma {:induction false} ErasedKeepsOthers(rows: seq<Row>, id: StageId, other: StageId)
    requires other != id
    ensures FilesOf(Erased(rows, id), other) == FilesOf(rows, other)
  {
    hide TextLess;
    if rows != [] {
      ErasedKeepsOthers(rows[1..], id, other);
      if rows[0].stage != id {
        assert Erased(rows, id)[1..] == Erased(rows[1..], id);
      }
    }
  }

  lemma {:induction false} ErasedLeavesNone(rows: seq<Row>, id: StageId)
    ensures FilesOf(Erased(rows, id), id) == []
  {
    hide TextLess;
    if rows != [] {
      ErasedLeavesNone(rows[1..], id);
      if rows[0].stage != id {
        assert Erased(rows, id)[1..] == Erased(rows[1..], id);
      }
    }
  }

  /** Erase removes exactly the rows of its stage. */
  lemma EraseRemovesExactly(db: Db, id: StageId, other: StageId)
    requires id in db.stages
    ensures FilesOf(EraseDb(db, id).rows, id) == []
    ensures other != id ==> FilesOf(EraseDb(db, id).rows, other) == FilesOf(db.rows, other)
    ensures EraseDb(db, id).stages.Keys == db.stages.Keys - {id}
  {
    ErasedLeavesNone(db.rows, id);
    if other != id { ErasedKeepsOthers(db.rows, id, other); }
  }
}
