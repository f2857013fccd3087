// The database: two tables changed in place by the statements of the service.
module Database {
  import opened Options
  import opened Paths
  import opened PathLists
  import opened Files
  import opened Tables

  datatype Found = Found(times: Times, files: seq<File>)

  /** What a status call sends back: possibly new timestamps of a stage, and file states. */
  datatype StageUpdate = StageUpdate(stage: Option<(StageId, Times)>, files: seq<(Path, State)>, tp: Time)

  function RowsFor(id: StageId, files: seq<File>): (r: seq<Row>)
    ensures |r| == |files|
  {
    seq(|files|, k requires 0 <= k < |files| => Row(id, files[k]))
  }

  predicate KeyTaken(rows: seq<Row>, id: StageId, p: Path) {
    exists i :: 0 <= i < |rows| && rows[i].stage == id && rows[i].file.logical == p
  }

  class SociDatabase {
    var stages: map<StageId, Times>
    var rows: seq<Row>

    function Contents(): Db
      reads this
    {
      Db(stages, rows)
    }

    constructor ()
      ensures Contents() == Db(map[], [])
    {
      stages, rows := map[], [];
    }

    /** One transaction: a violated primary key undoes everything. */
    method Insert(id: StageId, times: Times, files: seq<File>) returns (ok: bool)
      modifies this
      ensures ok <==> && id !in old(stages) && Distinct(Logicals(files))
                      && (forall k :: 0 <= k < |files| ==> !KeyTaken(old(rows), id, files[k].logical))
      ensures Contents() == if ok then Db(old(stages)[id := times], old(rows) + RowsFor(id, files)) else old(Contents())
    {
      if id in stages {
        return false;
      }
      var next := rows;
      for k := 0 to |files|
        invariant unchanged(this)
        invariant next == rows + RowsFor(id, files[..k])
        invariant Distinct(Logicals(files[..k]))
        invariant forall j :: 0 <= j < k ==> !KeyTaken(rows, id, files[j].logical)
      {
        if KeyTaken(next, id, files[k].logical) {
          var i :| 0 <= i < |next| && next[i].stage == id && next[i].file.logical == files[k].logical;
          if i < |rows| {
            assert KeyTaken(rows, id, files[k].logical);
          } else {
            assert Logicals(files)[i - |rows|] == Logicals(files)[k];
          }
          return false;
        }
        forall j | 0 <= j < k ensures files[j].logical != files[k].logical {
          assert next[|rows| + j] == Row(id, files[j]);
        }
        assert forall i :: 0 <= i < |rows| ==> next[i] == rows[i];
        next := next + [Row(id, files[k])];
      }
      assert files[..|files|] == files;
      stages := stages[id := times];
      rows := next;
      ok := true;
    }

    method Find(id: StageId) returns (r: Option<Found>)
      ensures r == if id in stages then Some(Found(stages[id], FilesOf(rows, id))) else None
    {
      if id !in stages {
        return None;
      }
      var files := [];
      for i := |rows| downto 0
        invariant files == FilesOf(rows[i..], id)
      {
        if rows[i].stage == id {
          files := InsertByText(rows[i].file, files);
        }
        assert rows[i..][0] == rows[i] && rows[i..][1..] == rows[i + 1..];
      }
      assert rows[0..] == rows;
      r := Some(Found(stages[id], files));
    }

    /** In no particular order. */
    method FindIncompleteStages() returns (ids: seq<StageId>)
      ensures Distinct(ids)
      ensures forall id :: id in ids <==> id in stages && stages[id].completedAt == 0
    {
      ids := [];
      var todo := stages.Keys;
      while todo != {}
        invariant todo <= stages.Keys
        invariant Distinct(ids)
        invariant forall id :: id in ids <==> id in stages && id !in todo && stages[id].completedAt == 0
        decreases todo
      {
        var id :| id in todo;
        todo := todo - {id};
        if stages[id].completedAt == 0 {
          ids := ids + [id];
        }
      }
    }

    method UpdateLogical(id: StageId, path: Path, state: State, tp: Time)
      modifies this`rows
      ensures rows == OnLogical(old(rows), id, path, state, tp)
    {
      for i := 0 to |rows|
        invariant |rows| == |old(rows)|
        invariant forall k :: 0 <= k < i ==> rows[k] == OnLogical(old(rows), id, path, state, tp)[k]
        invariant forall k :: i <= k < |rows| ==> rows[k] == old(rows)[k]
      {
        var row := rows[i];
        if row.stage == id && row.file.logical == path {
          rows := rows[i := row.(file := Moved(row.file, state, tp))];
        }
      }
    }

    method UpdatePath(path: Path, state: State, tp: Time)
      modifies this`rows
      ensures rows == OnPath(old(rows), path, state, tp)
    {
      for i := 0 to |rows|
        invariant |rows| == |old(rows)|
        invariant forall k :: 0 <= k < i ==> rows[k] == OnPath(old(rows), path, state, tp)[k]
        invariant forall k :: i <= k < |rows| ==> rows[k] == old(rows)[k]
      {
        var row := rows[i];
        if row.file.physical == path && Admits(row.file.state, state) {
          rows := rows[i := row.(file := Moved(row.file, state, tp))];
        }
      }
    }

    method UpdateLogicals(id: StageId, paths: seq<Path>, state: State, tp: Time)
      modifies this`rows
      ensures rows == OnLogicals(old(rows), id, paths, state, tp)
    {
      for i := 0 to |paths|
        invariant OnLogicals(rows, id, paths[i..], state, tp) == OnLogicals(old(rows), id, paths, state, tp)
      {
        UpdateLogical(id, paths[i], state, tp);
        assert paths[i..][1..] == paths[i + 1..];
      }
    }

    /** The loop of single updates moves all rows of the paths at once. */
    method UpdatePaths(paths: seq<Path>, state: State, tp: Time)
      modifies this`rows
      ensures rows == Retarget(old(rows), map p | p in paths :: state, tp)
    {
      for i := 0 to |paths|
        invariant OnPaths(rows, paths[i..], state, tp) == OnPaths(old(rows), paths, state, tp)
      {
        UpdatePath(paths[i], state, tp);
        assert paths[i..][1..] == paths[i + 1..];
      }
      UniformBatch(old(rows), paths, state, tp);
    }

    method UpdatePairs(pairs: seq<(Path, State)>, tp: Time)
      modifies this`rows
      ensures rows == OnPairs(old(rows), pairs, tp)
    {
      for i := 0 to |pairs|
        invariant OnPairs(rows, pairs[i..], tp) == OnPairs(old(rows), pairs, tp)
      {
        UpdatePath(pairs[i].0, pairs[i].1, tp);
        assert pairs[i..][1..] == pairs[i + 1..];
      }
    }

    method UpdateStage(id: StageId, times: Times)
      modifies this`stages
      ensures stages == if id in old(stages) then old(stages)[id := times] else old(stages)
    {
      if id in stages {
        stages := stages[id := times];
      }
    }

    method Update(update: StageUpdate)
      modifies this
      ensures rows == OnPairs(old(rows), update.files, update.tp)
      ensures stages == if update.stage.Some? && update.stage.value.0 in old(stages)
                        then old(stages)[update.stage.value.0 := update.stage.value.1] else old(stages)
    {
      if update.stage.Some? {
        UpdateStage(update.stage.value.0, update.stage.value.1);
      }
      UpdatePairs(update.files, update.tp);
    }

    method CountFiles(state: State) returns (n: nat)
      ensures n == |PathsIn(rows, state)|
    {
      var paths := {};
      for i := 0 to |rows|
        invariant paths == set k | 0 <= k < i && rows[k].file.state == state :: rows[k].file.physical
      {
        if rows[i].file.state == state {
          paths := paths + {rows[i].file.physical};
        }
      }
      n := |paths|;
    }

    method GetFiles(state: State, limit: nat) returns (r: seq<Path>)
      ensures IsSelection(rows, state, limit, r)
    {
      r := [];
      var i := 0;
      while i < |rows| && |r| < limit
        invariant 0 <= i <= |rows| && |r| <= limit
        invariant Distinct(r)
        invariant forall p :: p in r ==> p in PathsIn(rows, state)
        invariant forall k :: 0 <= k < i && rows[k].file.state == state ==> rows[k].file.physical in r
      {
        if rows[i].file.state == state && rows[i].file.physical !in r {
          r := r + [rows[i].file.physical];
        }
        i := i + 1;
      }
      ghost var chosen := set p | p in r;
      DistinctSize(r);
      SubsetSize(chosen, PathsIn(rows, state));
      if |r| < limit {
        assert chosen == PathsIn(rows, state);
      }
    }

    method Erase(id: StageId) returns (erased: bool)
      modifies this
      ensures erased <==> id in old(stages)
      ensures Contents() == if erased then Db(old(stages) - {id}, Erased(old(rows), id)) else old(Contents())
    {
      if id !in stages {
        return false;
      }
      var kept := [];
      for i := |rows| downto 0
        invariant unchanged(this)
        invariant kept == Erased(rows[i..], id)
      {
        if rows[i].stage != id {
          kept := [rows[i]] + kept;
        }
        assert rows[i..][0] == rows[i] && rows[i..][1..] == rows[i + 1..];
      }
      assert rows[0..] == rows;
      rows := kept;
      stages := stages - {id};
      erased := true;
    }
  }
}
