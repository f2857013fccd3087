// The two tables of the database as values, and what each statement makes of them.
module Tables {
  import opened Paths
  import opened Files
  import opened PathLists

  datatype Row = Row(stage: StageId, file: File)

  datatype Db = Db(stages: map<StageId, Times>, rows: seq<Row>)

  // ---- UPDATE statements, one row at a time ----

  /** The SET part of the timed updates: a starting time is written once by final states. */
  function Moved(f: File, s: State, tp: Time): File {
    if s.Submitted? then f
    else if s.Started? then f.(state := s, startedAt := tp)
    else f.(state := s, startedAt := if f.startedAt == 0 then tp else f.startedAt, finishedAt := tp)
  }

  /** The WHERE part on the state in the update by physical path. */
  predicate Admits(from: State, s: State) {
    if s.Started? then from.Submitted? else IsFinal(s) && !IsFinal(from)
  }

  function MoveGuarded(f: File, s: State, tp: Time): File {
    if Admits(f.state, s) then Moved(f, s, tp) else f
  }

  function OnPath(rows: seq<Row>, p: Path, s: State, tp: Time): (r: seq<Row>)
    ensures |r| == |rows|
  {
    seq(|rows|, i requires 0 <= i < |rows| =>
      if rows[i].file.physical == p then rows[i].(file := MoveGuarded(rows[i].file, s, tp)) else rows[i])
  }

  function OnLogical(rows: seq<Row>, id: StageId, p: Path, s: State, tp: Time): (r: seq<Row>)
    ensures |r| == |rows|
  {
    seq(|rows|, i requires 0 <= i < |rows| =>
      if rows[i].stage == id && rows[i].file.logical == p
      then rows[i].(file := Moved(rows[i].file, s, tp)) else rows[i])
  }

  // ---- Batches: loops of single updates ----

  function OnPairs(rows: seq<Row>, pairs: seq<(Path, State)>, tp: Time): (r: seq<Row>)
    ensures |r| == |rows|
    decreases |pairs|
  {
    if pairs == [] then rows else OnPairs(OnPath(rows, pairs[0].0, pairs[0].1, tp), pairs[1..], tp)
  }

  function OnPaths(rows: seq<Row>, paths: seq<Path>, s: State, tp: Time): (r: seq<Row>)
    ensures |r| == |rows|
    decreases |paths|
  {
    if paths == [] then rows else OnPaths(OnPath(rows, paths[0], s, tp), paths[1..], s, tp)
  }

  function OnLogicals(rows: seq<Row>, id: StageId, paths: seq<Path>, s: State, tp: Time): (r: seq<Row>)
    ensures |r| == |rows|
    decreases |paths|
  {
    if paths == [] then rows else OnLogicals(OnLogical(rows, id, paths[0], s, tp), id, paths[1..], s, tp)
  }

  // ---- Their simultaneous forms ----

  /** Every row moves, if its state admits it, to the target of its physical path. */
  function Retarget(rows: seq<Row>, targets: map<Path, State>, tp: Time): (r: seq<Row>)
    ensures |r| == |rows|
  {
    seq(|rows|, i requires 0 <= i < |rows| => rows[i].(file := RetargetFile(rows[i].file, targets, tp)))
  }

  function RetargetFile(f: File, targets: map<Path, State>, tp: Time): File {
    if f.physical in targets then MoveGuarded(f, targets[f.physical], tp) else f
  }

  /** Exactly the rows of a stage with one of the logical paths are overwritten. */
  function Overwrite(rows: seq<Row>, id: StageId, paths: seq<Path>, s: State, tp: Time): (r: seq<Row>)
    ensures |r| == |rows|
  {
    seq(|rows|, i requires 0 <= i < |rows| =>
      if rows[i].stage == id && rows[i].file.logical in paths
      then rows[i].(file := Moved(rows[i].file, s, tp)) else rows[i])
  }

  lemma {:induction false} PairsOnRow(rows: seq<Row>, pairs: seq<(Path, State)>, targets: map<Path, State>, tp: Time, i: nat)
    requires i < |rows|
    requires forall pr :: pr in pairs ==> pr.0 in targets && targets[pr.0] == pr.1
    ensures OnPairs(rows, pairs, tp)[i] ==
      if exists pr :: pr in pairs && pr.0 == rows[i].file.physical
      then rows[i].(file := RetargetFile(rows[i].file, targets, tp)) else rows[i]
    decreases |pairs|
  {
    if pairs != [] {
      var next := OnPath(rows, pairs[0].0, pairs[0].1, tp);
      assert pairs[0] in pairs;
      assert forall pr :: pr in pairs <==> pr == pairs[0] || pr in pairs[1..];
      PairsOnRow(next, pairs[1..], targets, tp, i);
    }
  }

  /** A batch with one target state per physical path acts on all rows at once,
      whatever the order of the pairs and however often they are repeated. */
  lemma BatchIsSimultaneous(rows: seq<Row>, pairs: seq<(Path, State)>, targets: map<Path, State>, tp: Time)
    requires forall pr :: pr in pairs ==> pr.0 in targets && targets[pr.0] == pr.1
    requires forall p :: p in targets ==> (p, targets[p]) in pairs
    ensures OnPairs(rows, pairs, tp) == Retarget(rows, targets, tp)
  {
    forall i | 0 <= i < |rows| ensures OnPairs(rows, pairs, tp)[i] == Retarget(rows, targets, tp)[i] {
      PairsOnRow(rows, pairs, targets, tp, i);
      var p := rows[i].file.physical;
      if p in targets { assert (p, targets[p]) in pairs; }
    }
  }

  lemma {:induction false} PathsArePairs(rows: seq<Row>, paths: seq<Path>, s: State, tp: Time)
    ensures OnPaths(rows, paths, s, tp) == OnPairs(rows, seq(|paths|, i requires 0 <= i < |paths| => (paths[i], s)), tp)
    decreases |paths|
  {
    if paths != [] {
      var pairs := seq(|paths|, i requires 0 <= i < |paths| => (paths[i], s));
      var rest := paths[1..];
      PathsArePairs(OnPath(rows, paths[0], s, tp), rest, s, tp);
      assert pairs[1..] == seq(|rest|, i requires 0 <= i < |rest| => (rest[i], s));
    }
  }

  /** The uniform batch is the simultaneous move of the set of its paths. */
  lemma UniformBatch(rows: seq<Row>, paths: seq<Path>, s: State, tp: Time)
    ensures OnPaths(rows, paths, s, tp) == Retarget(rows, map p | p in paths :: s, tp)
  {
    var pairs := seq(|paths|, i requires 0 <= i < |paths| => (paths[i], s));
    var targets := map p | p in paths :: s;
    PathsArePairs(rows, paths, s, tp);
    forall p | p in targets ensures (p, targets[p]) in pairs {
      var i :| 0 <= i < |paths| && paths[i] == p;
      assert pairs[i] == (p, s);
    }
    BatchIsSimultaneous(rows, pairs, targets, tp);
  }

  /** Moves of disjoint sets of paths compose. */
  lemma RetargetTwice(rows: seq<Row>, t: map<Path, State>, u: map<Path, State>, tp: Time)
    requires t.Keys !! u.Keys
    ensures Retarget(Retarget(rows, t, tp), u, tp) == Retarget(rows, t + u, tp)
  {
    assert forall p :: p in t ==> p !in u;
    forall i | 0 <= i < |rows|
      ensures Retarget(Retarget(rows, t, tp), u, tp)[i] == Retarget(rows, t + u, tp)[i]
    {
      assert Retarget(rows, t, tp)[i].file.physical == rows[i].file.physical;
    }
  }

  lemma {:induction false} OverwriteBatch(rows: seq<Row>, id: StageId, paths: seq<Path>, s: State, tp: Time)
    requires IsFinal(s)
    ensures OnLogicals(rows, id, paths, s, tp) == Overwrite(rows, id, paths, s, tp)
    decreases |paths|
  {
    if paths == [] {
      assert OnLogicals(rows, id, paths, s, tp) == rows;
    } else {
      var next := OnLogical(rows, id, paths[0], s, tp);
      OverwriteBatch(next, id, paths[1..], s, tp);
      assert forall p :: p in paths <==> p == paths[0] || p in paths[1..];
      forall i | 0 <= i < |rows|
        ensures Overwrite(next, id, paths[1..], s, tp)[i] == Overwrite(rows, id, paths, s, tp)[i]
      {
        assert next[i].stage == rows[i].stage && next[i].file.logical == rows[i].file.logical;
      }
    }
  }

  /** DELETE of the files of a stage. */
  function Erased(rows: seq<Row>, id: StageId): (r: seq<Row>)
    ensures |r| <= |rows|
  {
    if rows == [] then []
    else if rows[0].stage == id then Erased(rows[1..], id)
    else [rows[0]] + Erased(rows[1..], id)
  }

  // ---- SELECT statements ----

  /** SELECT DISTINCT physical_path for a state. */
  function PathsIn(rows: seq<Row>, s: State): set<Path> {
    set i | 0 <= i < |rows| && rows[i].file.state == s :: rows[i].file.physical
  }

  /** With LIMIT: any distinct paths in the state, as many as allowed and available. */
  ghost predicate IsSelection(rows: seq<Row>, s: State, limit: nat, selected: seq<Path>) {
    && Distinct(selected)
    && (forall p :: p in selected ==> p in PathsIn(rows, s))
    && |selected| == (if limit < |PathsIn(rows, s)| then limit else |PathsIn(rows, s)|)
  }

  function InsertByText(f: File, files: seq<File>): (r: seq<File>)
    ensures multiset(r) == multiset(files) + multiset{f}
  {
    if files == [] || !TextLess(files[0].logical, f.logical) then [f] + files
    else
      assert files == [files[0]] + files[1..];
      [files[0]] + InsertByText(f, files[1..])
  }

  /** The files of a stage in the order of the text of their logical paths. */
  function FilesOf(rows: seq<Row>, id: StageId): seq<File> {
    if rows == [] then []
    else if rows[0].stage == id then InsertByText(rows[0].file, FilesOf(rows[1..], id))
    else FilesOf(rows[1..], id)
  }

  lemma FilesOfCons(row: Row, rows: seq<Row>, id: StageId)
    ensures FilesOf([row] + rows, id) == if row.stage == id then InsertByText(row.file, FilesOf(rows, id)) else FilesOf(rows, id)
  {
    assert ([row] + rows)[1..] == rows;
  }

  /** The query lists exactly the files of the rows of the stage. */
  lemma {:induction false} ListedAreRows(rows: seq<Row>, id: StageId, f: File)
    ensures f in FilesOf(rows, id) <==> Row(id, f) in rows
  {
    hide TextLess;
    if rows != [] {
      ListedAreRows(rows[1..], id, f);
      assert rows == [rows[0]] + rows[1..];
      if rows[0].stage == id {
        var r := InsertByText(rows[0].file, FilesOf(rows[1..], id));
        assert f in r <==> f in multiset(r);
      }
    }
  }

  ghost predicate TextSorted(files: seq<File>) {
    forall i, j :: 0 <= i < j < |files| ==> !TextLess(files[j].logical, files[i].logical)
  }

  ghost predicate UniqueKeys(rows: seq<Row>) {
    forall i, j :: 0 <= i < j < |rows| ==>
      rows[i].stage != rows[j].stage || rows[i].file.logical != rows[j].file.logical
  }

  lemma TextNotLessTrans(p: Path, q: Path, r: Path)
    requires !TextLess(q, p) && !TextLess(r, q)
    ensures !TextLess(r, p)
  {
    NameTotal(Text(p), Text(q));
    NameTotal(Text(q), Text(r));
    NameTotal(Text(p), Text(r));
    if Text(p) != Text(q) && Text(q) != Text(r) { NameTrans(Text(p), Text(q), Text(r)); }
  }

  lemma {:induction false} InsertKeepsTextSorted(f: File, files: seq<File>)
    requires TextSorted(files)
    ensures TextSorted(InsertByText(f, files))
  {
    var r := InsertByText(f, files);
    if files == [] {
    } else if !TextLess(files[0].logical, f.logical) {
      forall j | 1 <= j < |r| ensures !TextLess(r[j].logical, f.logical) {
        if j > 1 { TextNotLessTrans(f.logical, files[0].logical, files[j - 1].logical); }
      }
    } else {
      var q := InsertByText(f, files[1..]);
      InsertKeepsTextSorted(f, files[1..]);
      NameTotal(Text(files[0].logical), Text(f.logical));
      forall j | 0 <= j < |q| ensures !TextLess(q[j].logical, files[0].logical) {
        assert q[j] in multiset(q);
        assert q[j] == f || q[j] in files[1..];
      }
    }
  }

  /** The query returns the files sorted by text, each logical path once. */
  lemma {:induction false} FilesOfSorted(rows: seq<Row>, id: StageId)
    requires UniqueKeys(rows)
    ensures TextSorted(FilesOf(rows, id))
    ensures Distinct(Logicals(FilesOf(rows, id)))
  {
    if rows != [] {
      FilesOfSorted(rows[1..], id);
      if rows[0].stage == id {
        var f, rest := rows[0].file, FilesOf(rows[1..], id);
        InsertKeepsTextSorted(f, rest);
        forall g | g in rest ensures g.logical != f.logical {
          ListedAreRows(rows[1..], id, g);
          var j :| 0 <= j < |rows[1..]| && rows[1..][j] == Row(id, g);
          assert rows[j + 1].file.logical == g.logical;
        }
        InsertKeepsDistinct(f, rest);
      }
    }
  }

  lemma LogicalsCons(f: File, files: seq<File>)
    ensures Logicals([f] + files) == [f.logical] + Logicals(files)
    ensures multiset(Logicals([f] + files)) == multiset{f.logical} + multiset(Logicals(files))
  {
    assert Logicals([f] + files) == [f.logical] + Logicals(files);
  }

  lemma {:induction false} InsertAddsPath(f: File, files: seq<File>)
    ensures multiset(Logicals(InsertByText(f, files))) == multiset(Logicals(files)) + multiset{f.logical}
  {
    hide TextLess, Logicals;
    if files == [] || !TextLess(files[0].logical, f.logical) {
      LogicalsCons(f, files);
    } else {
      var head, rest := files[0], files[1..];
      InsertAddsPath(f, rest);
      LogicalsCons(head, rest);
      LogicalsCons(head, InsertByText(f, rest));
      assert files == [head] + rest;
    }
  }

  lemma InsertKeepsDistinct(f: File, files: seq<File>)
    requires Distinct(Logicals(files))
    requires forall g :: g in files ==> g.logical != f.logical
    ensures Distinct(Logicals(InsertByText(f, files)))
  {
    var s := Logicals(files);
    forall k | 0 <= k < |s| ensures s[k] != f.logical {
      assert files[k] in files;
    }
    DistinctAsCounts(s);
    DistinctAsCounts(Logicals(InsertByText(f, files)));
    InsertAddsPath(f, files);
  }
}
