// The files of a stage request, their states, and what the timestamps of a stage mean.
module Files {
  import opened Paths

  type Time = int
  type StageId = string

  datatype State = Submitted | Started | Cancelled | Failed | Completed

  /** The value stored in the database; files are sorted by it. */
  function Underlying(s: State): nat {
    match s
    case Submitted => 0
    case Started => 1
    case Cancelled => 2
    case Failed => 3
    case Completed => 4
  }

  predicate IsFinal(s: State) {
    s.Cancelled? || s.Failed? || s.Completed?
  }

  /** How far a file still is from a final state. */
  function Rank(s: State): nat {
    if s.Submitted? then 2 else if s.Started? then 1 else 0
  }

  datatype File = File(logical: Path, physical: Path, state: State, startedAt: Time, finishedAt: Time)

  datatype Times = Times(createdAt: Time, startedAt: Time, completedAt: Time)

  predicate StateLeq(f: File, g: File) {
    Underlying(f.state) <= Underlying(g.state)
  }

  function Logicals(files: seq<File>): (r: seq<Path>)
    ensures |r| == |files| && forall k :: 0 <= k < |r| ==> r[k] == files[k].logical
  {
    seq(|files|, k requires 0 <= k < |files| => files[k].logical)
  }

  predicate AnyBegun(files: seq<File>) {
    exists f :: f in files && !f.state.Submitted?
  }

  predicate AllFinal(files: seq<File>) {
    forall f :: f in files ==> IsFinal(f.state)
  }

  /** The smallest starting time of the files that are no longer submitted. */
  function MinStarted(files: seq<File>): (t: Time)
    requires AnyBegun(files)
    ensures exists f :: f in files && !f.state.Submitted? && f.startedAt == t
    ensures forall f :: f in files && !f.state.Submitted? ==> t <= f.startedAt
  {
    var head, rest := files[0], files[1..];
    assert forall f :: f in files <==> f == head || f in rest;
    if head.state.Submitted? then MinStarted(rest)
    else if AnyBegun(rest) && MinStarted(rest) < head.startedAt then MinStarted(rest)
    else head.startedAt
  }

  /** The largest finishing time. */
  function MaxFinished(files: seq<File>): (t: Time)
    requires files != []
    ensures exists f :: f in files && f.finishedAt == t
    ensures forall f :: f in files ==> f.finishedAt <= t
  {
    var head, rest := files[0], files[1..];
    assert forall f :: f in files <==> f == head || f in rest;
    if rest != [] && head.finishedAt < MaxFinished(rest) then MaxFinished(rest) else head.finishedAt
  }

  /** The timestamps of a stage once they are brought up to date with its files. */
  function Refreshed(t: Times, files: seq<File>): Times {
    Times(
      t.createdAt,
      if t.startedAt == 0 && AnyBegun(files) then MinStarted(files) else t.startedAt,
      if t.completedAt == 0 && files != [] && AllFinal(files) then MaxFinished(files) else t.completedAt)
  }

  lemma SameElements(a: seq<File>, b: seq<File>)
    requires multiset(a) == multiset(b)
    ensures forall f :: f in a <==> f in b
  {
    forall f ensures f in a <==> f in b {
      assert f in a <==> f in multiset(a);
      assert f in b <==> f in multiset(b);
    }
  }

  /** Refreshing depends on the files of the stage, not on their order. */
  lemma RefreshedOfPermutation(t: Times, a: seq<File>, b: seq<File>)
    requires a != [] && multiset(a) == multiset(b)
    ensures b != [] && Refreshed(t, a) == Refreshed(t, b)
  {
    SameElements(a, b);
    assert a[0] in b;
    assert AllFinal(a) <==> AllFinal(b);
    assert AnyBegun(a) <==> AnyBegun(b);
  }

  lemma SortedEnds(files: seq<File>)
    requires files != []
    requires forall i, j :: 0 <= i < j < |files| ==> StateLeq(files[i], files[j])
    ensures AnyBegun(files) <==> !files[|files| - 1].state.Submitted?
    ensures AllFinal(files) <==> IsFinal(files[0].state)
  {
    var last := files[|files| - 1];
    assert last in files && files[0] in files;
    forall f | f in files
      ensures StateLeq(f, last) && StateLeq(files[0], f)
    {
      var i :| 0 <= i < |files| && files[i] == f;
    }
  }
}
