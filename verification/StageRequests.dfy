// A stage request held in memory, and the refresh of its timestamps.
module StageRequests {
  import opened Files
  import opened Sorting

  class StageRequest {
    var files: seq<File>
    var createdAt: Time
    var startedAt: Time
    var completedAt: Time

    constructor (times: Times, files: seq<File>)
      ensures CurrentTimes() == times && this.files == files
    {
      this.files := files;
      this.createdAt := times.createdAt;
      this.startedAt := times.startedAt;
      this.completedAt := times.completedAt;
    }

    function CurrentTimes(): Times
      reads this
    {
      Times(createdAt, startedAt, completedAt)
    }

    /** Refreshes the timestamps by a binary search for the first file that is no longer
        submitted and by minimum and maximum searches.  The assertions in the code are the
        preconditions: files sorted by state, and a starting time for every file that began. */
    method UpdateTimestamps() returns (updated: bool)
      requires files != [] && SortedBy(files, StateLeq)
      requires forall f :: f in files && !f.state.Submitted? ==> f.startedAt > 0
      modifies this`startedAt, this`completedAt
      ensures CurrentTimes() == Refreshed(old(CurrentTimes()), files)
      ensures startedAt == if old(startedAt) == 0 && AnyBegun(files) then MinStarted(files) else old(startedAt)
      ensures completedAt == if old(completedAt) == 0 && AllFinal(files) then MaxFinished(files) else old(completedAt)
      ensures updated <==> (old(startedAt) == 0 && AnyBegun(files)) || (old(completedAt) == 0 && AllFinal(files))
    {
      SortedEnds(files);
      updated := false;
      if startedAt == 0 && !files[|files| - 1].state.Submitted? {
        var first := PartitionPoint(files, Underlying(Started));
        startedAt := EarliestStart(files, first);
        updated := true;
      }
      if completedAt == 0 && IsFinal(files[0].state) {
        completedAt := LatestFinish(files);
        updated := true;
      }
    }
  }

  /** `std::partition_point`: the number of files whose state comes before the bound. */
  method PartitionPoint(files: seq<File>, bound: nat) returns (k: nat)
    requires SortedBy(files, StateLeq)
    ensures k <= |files|
    ensures forall i :: 0 <= i < |files| ==> (Underlying(files[i].state) < bound <==> i < k)
  {
    var lo, hi := 0, |files|;
    while lo < hi
      invariant 0 <= lo <= hi <= |files|
      invariant forall i :: 0 <= i < lo ==> Underlying(files[i].state) < bound
      invariant forall i :: hi <= i < |files| ==> bound <= Underlying(files[i].state)
    {
      var mid := lo + (hi - lo) / 2;
      if Underlying(files[mid].state) < bound {
        assert forall i :: 0 <= i < mid ==> StateLeq(files[i], files[mid]);
        lo := mid + 1;
      } else {
        assert forall i :: mid < i < |files| ==> StateLeq(files[mid], files[i]);
        hi := mid;
      }
    }
    k := lo;
  }

  /** `std::min_element` over the files from `first` on. */
  method EarliestStart(files: seq<File>, first: nat) returns (t: Time)
    requires first < |files|
    requires forall i :: 0 <= i < |files| ==> (files[i].state.Submitted? <==> i < first)
    ensures AnyBegun(files) && t == MinStarted(files)
  {
    assert files[first] in files;
    t := files[first].startedAt;
    var best := first;
    for i := first + 1 to |files|
      invariant first <= best < |files| && t == files[best].startedAt
      invariant forall k :: first <= k < i ==> t <= files[k].startedAt
    {
      if files[i].startedAt < t {
        best, t := i, files[i].startedAt;
      }
    }
    assert files[best] in files;
    var f :| f in files && !f.state.Submitted? && f.startedAt == MinStarted(files);
    var k :| 0 <= k < |files| && files[k] == f;
    assert first <= k;
  }

  /** `std::max_element` over all files. */
  method LatestFinish(files: seq<File>) returns (t: Time)
    requires files != []
    ensures t == MaxFinished(files)
  {
    t := files[0].finishedAt;
    var best := 0;
    for i := 1 to |files|
      invariant 0 <= best < |files| && t == files[best].finishedAt
      invariant forall k :: 0 <= k < i ==> files[k].finishedAt <= t
    {
      if t < files[i].finishedAt {
        best, t := i, files[i].finishedAt;
      }
    }
    assert files[best] in files;
    var f :| f in files && f.finishedAt == MaxFinished(files);
    var k :| 0 <= k < |files| && files[k] == f;
    assert files[k].finishedAt <= t;
  }
}
