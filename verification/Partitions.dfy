// The in-place partition of the selected paths into the four classes of take over.
module Partitions {
  import opened Paths
  import opened Sorting
  import opened Storage
  import opened World

  datatype PathLocality = PathLocality(path: Path, locality: Locality)

  method Swap<T>(a: array<T>, i: nat, j: nat)
    requires i <= j < a.Length
    modifies a
    ensures a[i] == old(a[j]) && a[j] == old(a[i])
    ensures forall k :: 0 <= k < a.Length && k != i && k != j ==> a[k] == old(a[k])
    ensures multiset(a[..]) == multiset(old(a[..]))
  {
    a[i], a[j] := a[j], a[i];
  }

  /** With the ends fixed, a rearrangement of the whole is one of the middle. */
  lemma MiddleRearranged<T>(s: seq<T>, t: seq<T>, lo: nat, hi: nat)
    requires lo <= hi <= |s| && |t| == |s|
    requires multiset(s) == multiset(t)
    requires s[..lo] == t[..lo] && s[hi..] == t[hi..]
    ensures multiset(s[lo..hi]) == multiset(t[lo..hi])
  {
    assert s == s[..lo] + s[lo..hi] + s[hi..];
    assert t == t[..lo] + t[lo..hi] + t[hi..];
    assert multiset(s) == multiset(s[..lo]) + multiset(s[lo..hi]) + multiset(s[hi..]);
    assert multiset(t) == multiset(t[..lo]) + multiset(t[lo..hi]) + multiset(t[hi..]);
    EndsCancel(multiset(s[..lo]), multiset(s[lo..hi]), multiset(t[lo..hi]), multiset(s[hi..]));
  }

  /** `std::partition` on the span from `lo` to `hi`: elements are only moved within the span. */
  method Partition<T>(a: array<T>, lo: nat, hi: nat, keep: T -> bool) returns (mid: nat)
    requires lo <= hi <= a.Length
    modifies a
    ensures lo <= mid <= hi
    ensures forall k :: lo <= k < mid ==> keep(a[k])
    ensures forall k :: mid <= k < hi ==> !keep(a[k])
    ensures a[..lo] == old(a[..lo]) && a[hi..] == old(a[hi..])
    ensures multiset(a[lo..hi]) == multiset(old(a[lo..hi]))
    ensures multiset(a[..]) == multiset(old(a[..]))
  {
    mid := lo;
    for j := lo to hi
      invariant lo <= mid <= j
      invariant forall k :: lo <= k < mid ==> keep(a[k])
      invariant forall k :: mid <= k < j ==> !keep(a[k])
      invariant forall k :: 0 <= k < lo || hi <= k < a.Length ==> a[k] == old(a[k])
      invariant multiset(a[..]) == multiset(old(a[..]))
    {
      if keep(a[j]) {
        Swap(a, mid, j);
        mid := mid + 1;
      }
    }
    ghost var s, t := old(a[..]), a[..];
    assert s[..lo] == t[..lo] && s[hi..] == t[hi..];
    MiddleRearranged(s, t, lo, hi);
    assert old(a[lo..hi]) == s[lo..hi] && a[lo..hi] == t[lo..hi];
  }

  function PathsOf(s: seq<PathLocality>): (r: seq<Path>)
    ensures |r| == |s| && forall k :: 0 <= k < |r| ==> r[k] == s[k].path
  {
    seq(|s|, k requires 0 <= k < |s| => s[k].path)
  }

  lemma PathsOfAppend(a: seq<PathLocality>, b: seq<PathLocality>)
    ensures PathsOf(a + b) == PathsOf(a) + PathsOf(b)
  {
  }

  lemma PathsOfMiddle(a: seq<PathLocality>, x: PathLocality, b: seq<PathLocality>)
    ensures multiset(PathsOf(a + [x] + b)) == multiset(PathsOf(a + b)) + multiset{x.path}
  {
    PathsOfAppend(a + [x], b);
    PathsOfAppend(a, [x]);
    PathsOfAppend(a, b);
    assert PathsOf([x]) == [x.path];
  }

  /** Rearranging the pairs rearranges their paths. */
  lemma {:induction false} PathsOfPermutation(a: seq<PathLocality>, b: seq<PathLocality>)
    requires multiset(a) == multiset(b)
    ensures multiset(PathsOf(a)) == multiset(PathsOf(b))
    decreases |a|
  {
    assert |a| == |multiset(a)| == |multiset(b)| == |b|;
    if a != [] {
      var x, rest := a[0], a[1..];
      var before, after := SharedElement(a, b);
      PathsOfPermutation(rest, before + after);
      assert a == [] + [x] + rest && [] + rest == rest;
      PathsOfMiddle([], x, rest);
      PathsOfMiddle(before, x, after);
    }
  }

  predicate OnlyOnTape(x: PathLocality) {
    x.locality.OnTape? || x.locality.Lost?
  }

  predicate OnSomeDisk(x: PathLocality) {
    x.locality.OnDisk? || x.locality.OnDiskAndTape?
  }

  /** A property of all elements of a span survives any rearrangement of the span. */
  lemma SpanKeeps<T>(before: seq<T>, after: seq<T>, good: T -> bool)
    requires multiset(before) == multiset(after)
    requires forall k :: 0 <= k < |before| ==> good(before[k])
    ensures forall k :: 0 <= k < |after| ==> good(after[k])
  {
    forall k | 0 <= k < |after| ensures good(after[k]) {
      assert after[k] in multiset(after);
      assert after[k] in before;
    }
  }

  function Located(disk: Disk, path: Path): PathLocality {
    PathLocality(path, LocalityOf(Look(disk, path)))
  }

  predicate TrueLocality(disk: Disk, x: PathLocality) {
    x == Located(disk, x.path)
  }

  /** The locality of every path. */
  method ExtendWithLocalities(storage: LocalStorage, paths: seq<Path>) returns (a: array<PathLocality>)
    modifies storage`answered
    ensures fresh(a) && a.Length == |paths|
    ensures forall k :: 0 <= k < a.Length ==> a[k] == Located(storage.disk, paths[k])
  {
    a := new PathLocality[|paths|](_ => PathLocality(EMPTY_PATH, Unavailable));
    for i := 0 to |paths|
      invariant forall k :: 0 <= k < i ==> a[k] == Located(storage.disk, paths[k])
    {
      var status := new ExtendedFileStatus(storage, paths[i]);
      var locality := status.GetLocality();
      a[i] := PathLocality(paths[i], locality);
    }
  }

  /** The paths only on tape first, and among them the recalls in progress first. */
  method SelectOnTape(a: array<PathLocality>, disk: Disk) returns (recall: nat, tape: nat)
    modifies a
    ensures recall <= tape <= a.Length
    ensures multiset(a[..]) == multiset(old(a[..]))
    ensures forall k :: 0 <= k < tape ==> OnlyOnTape(a[k]) && (RecallInProgress(disk, a[k].path) <==> k < recall)
    ensures forall k :: tape <= k < a.Length ==> !OnlyOnTape(a[k])
  {
    hide OnlyOnTape, RecallInProgress;
    tape := Partition(a, 0, a.Length, OnlyOnTape);
    ghost var first, tail := a[0..tape], a[tape..];
    recall := Partition(a, 0, tape, (x: PathLocality) => RecallInProgress(disk, x.path));
    ghost var second := a[0..tape];
    SpanKeeps(first, second, OnlyOnTape);
    forall k | 0 <= k < tape ensures OnlyOnTape(a[k]) {
      assert a[k] == second[k];
    }
    assert a[tape..] == tail;
    forall k | tape <= k < a.Length ensures !OnlyOnTape(a[k]) {
      assert a[k] == tail[k - tape];
    }
  }

  /** Nested partitions of one array: first by locality, then each part again. */
  method PartitionNested(a: array<PathLocality>, disk: Disk) returns (recall: nat, tape: nat, onDisk: nat)
    modifies a
    ensures multiset(a[..]) == multiset(old(a[..]))
    ensures NestedSpans(disk, a[..], recall, tape, onDisk)
  {
    hide OnlyOnTape, OnSomeDisk, RecallInProgress;
    recall, tape := SelectOnTape(a, disk);
    ghost var first, tail := a[..tape], a[tape..a.Length];
    onDisk := Partition(a, tape, a.Length, OnSomeDisk);
    ghost var third := a[tape..a.Length];
    assert a[..] == first + third;
    SpanKeeps(tail, third, (x: PathLocality) => !OnlyOnTape(x));
    SpansSideBySide(disk, first, third, recall, onDisk - tape);
  }

  /** The bounds of the nested partitions: first the recalls in progress, then the rest of what
      is only on tape, then what is on disk, then the rest. */
  ghost predicate NestedSpans(disk: Disk, s: seq<PathLocality>, recall: nat, tape: nat, onDisk: nat) {
    && recall <= tape <= onDisk <= |s|
    && (forall k :: 0 <= k < tape ==> OnlyOnTape(s[k]) && (RecallInProgress(disk, s[k].path) <==> k < recall))
    && (forall k :: tape <= k < |s| ==> !OnlyOnTape(s[k]) && (OnSomeDisk(s[k]) <==> k < onDisk))
  }

  lemma SpansSideBySide(disk: Disk, a: seq<PathLocality>, b: seq<PathLocality>, recall: nat, onDisk: nat)
    requires recall <= |a| && onDisk <= |b|
    requires forall k :: 0 <= k < |a| ==> OnlyOnTape(a[k]) && (RecallInProgress(disk, a[k].path) <==> k < recall)
    requires forall k :: 0 <= k < |b| ==> !OnlyOnTape(b[k]) && (OnSomeDisk(b[k]) <==> k < onDisk)
    ensures NestedSpans(disk, a + b, recall, |a|, |a| + onDisk)
  {
  }

  /** The four classes of the selected paths; together they are a rearrangement of the selection. */
  method Classify(storage: LocalStorage, paths: seq<Path>)
      returns (recalling: seq<Path>, needRecall: seq<Path>, onDisk: seq<Path>, theRest: seq<Path>)
    modifies storage`answered
    ensures multiset(recalling + needRecall + onDisk + theRest) == multiset(paths)
    ensures forall p :: p in recalling ==> ClassOf(Look(storage.disk, p)) == Recalling
    ensures forall p :: p in needRecall ==> ClassOf(Look(storage.disk, p)) == NeedsRecall
    ensures forall p :: p in onDisk ==> ClassOf(Look(storage.disk, p)) == AlreadyOnDisk
    ensures forall p :: p in theRest ==> ClassOf(Look(storage.disk, p)) == Hopeless
  {
    var disk := storage.disk;
    var a := ExtendWithLocalities(storage, paths);
    ghost var start := a[..];
    assert PathsOf(start) == paths;
    var r, t, d := PartitionNested(a, disk);
    ghost var final := a[..];
    PathsOfPermutation(start, final);
    SpanKeeps(start, final, (x: PathLocality) => TrueLocality(disk, x));
    recalling, needRecall, onDisk, theRest := PathsOf(a[..r]), PathsOf(a[r..t]), PathsOf(a[t..d]), PathsOf(a[d..]);
    SpansAreClasses(disk, final, r, t, d);
    assert a[..r] == final[..r] && a[r..t] == final[r..t] && a[t..d] == final[t..d] && a[d..] == final[d..];
  }

  lemma SpansAreClasses(disk: Disk, s: seq<PathLocality>, r: nat, t: nat, d: nat)
    requires NestedSpans(disk, s, r, t, d)
    requires forall k :: 0 <= k < |s| ==> TrueLocality(disk, s[k])
    ensures PathsOf(s[..r]) + PathsOf(s[r..t]) + PathsOf(s[t..d]) + PathsOf(s[d..]) == PathsOf(s)
    ensures forall p :: p in PathsOf(s[..r]) ==> ClassOf(Look(disk, p)) == Recalling
    ensures forall p :: p in PathsOf(s[r..t]) ==> ClassOf(Look(disk, p)) == NeedsRecall
    ensures forall p :: p in PathsOf(s[t..d]) ==> ClassOf(Look(disk, p)) == AlreadyOnDisk
    ensures forall p :: p in PathsOf(s[d..]) ==> ClassOf(Look(disk, p)) == Hopeless
  {
    forall k | 0 <= k < |s| ensures ClassOf(Look(disk, s[k].path)) == SpanClass(k, r, t, d) {
      assert TrueLocality(disk, s[k]);
    }
    SpanElements(s, 0, r);
    SpanElements(s, r, t);
    SpanElements(s, t, d);
    SpanElements(s, d, |s|);
  }

  /** The class of the element at position `k`, for the bounds of the nested partitions. */
  function SpanClass(k: nat, recall: nat, tape: nat, onDisk: nat): Class {
    if k < recall then Recalling else if k < tape then NeedsRecall else if k < onDisk then AlreadyOnDisk else Hopeless
  }

  lemma SpanElements(s: seq<PathLocality>, lo: nat, hi: nat)
    requires lo <= hi <= |s|
    ensures forall p :: p in PathsOf(s[lo..hi]) ==> exists k :: lo <= k < hi && s[k].path == p
  {
    forall p | p in PathsOf(s[lo..hi]) ensures exists k :: lo <= k < hi && s[k].path == p {
      var i :| 0 <= i < hi - lo && PathsOf(s[lo..hi])[i] == p;
      assert s[lo + i].path == p;
    }
  }
}
