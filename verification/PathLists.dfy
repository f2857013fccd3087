// Lists of paths: sorting, duplicate removal, and the set difference with which
// cancel and release look for paths that do not belong to a stage.
module PathLists {
  import opened Paths
  import opened Sorting

  ghost predicate Sorted(s: seq<Path>) {
    forall i, j :: 0 <= i < j < |s| ==> PathLeq(s[i], s[j])
  }

  ghost predicate StrictlySorted(s: seq<Path>) {
    forall i, j :: 0 <= i < j < |s| ==> PathLess(s[i], s[j])
  }

  ghost predicate Distinct<T>(s: seq<T>) {
    forall i, j :: 0 <= i < j < |s| ==> s[i] != s[j]
  }

  /** Pairwise distinctness of a list can be read off the multiset of its elements. */
  lemma {:induction false} DistinctAsCounts<T>(s: seq<T>)
    ensures Distinct(s) <==> forall x :: multiset(s)[x] <= 1
  {
    if s != [] {
      var t := s[1..];
      assert s == [s[0]] + t;
      DistinctAsCounts(t);
      if Distinct(s) {
        assert forall i :: 0 <= i < |t| ==> t[i] == s[i + 1];
        assert Distinct(t);
        assert s[0] !in t;
      }
      if forall x :: multiset(s)[x] <= 1 {
        assert multiset(s)[s[0]] <= 1;
        forall x ensures multiset(t)[x] <= 1 { assert multiset(s)[x] <= 1; }
        forall i, j | 0 <= i < j < |s| ensures s[i] != s[j] {
          assert s[j] == t[j - 1];
          if i > 0 { assert s[i] == t[i - 1]; } else { assert s[j] in t; }
        }
      }
    }
  }

  lemma DistinctOfPermutation<T>(s: seq<T>, t: seq<T>)
    requires multiset(s) == multiset(t)
    ensures Distinct(s) <==> Distinct(t)
  {
    DistinctAsCounts(s);
    DistinctAsCounts(t);
  }

  /** Distinct elements fill a set of their number. */
  lemma {:induction false} DistinctSize<T>(s: seq<T>)
    requires Distinct(s)
    ensures |set x | x in s| == |s|
  {
    if s != [] {
      var t := s[1..];
      assert forall i :: 0 <= i < |t| ==> t[i] == s[i + 1];
      assert Distinct(t);
      DistinctSize(t);
      assert s == [s[0]] + t;
      assert s[0] !in t;
      assert (set x | x in s) == (set x | x in t) + {s[0]};
    }
  }

  lemma SubsetSize<T>(a: set<T>, b: set<T>)
    requires a <= b
    ensures |a| <= |b|
  {
    assert b == a + (b - a);
  }

  lemma PathLeqIsPreorder()
    ensures TotalPreorder(PathLeq)
  {
    forall x, y ensures PathLeq(x, y) || PathLeq(y, x) { PathTotal(x, y); }
    forall x, y, z | PathLeq(x, y) && PathLeq(y, z) ensures PathLeq(x, z) { PathLeqTrans(x, y, z); }
  }

  /** `std::sort` on paths. */
  method SortPaths(s: seq<Path>) returns (r: seq<Path>)
    ensures Sorted(r) && multiset(r) == multiset(s)
  {
    PathLeqIsPreorder();
    r := Sort(s, PathLeq);
  }

  /** Sorting and removing neighbouring duplicates leaves each path once, in increasing order. */
  lemma {:induction false} UniqueSorted(s: seq<Path>)
    requires Sorted(s)
    ensures StrictlySorted(Unique(s))
    ensures forall p :: p in Unique(s) <==> p in s
  {
    if |s| > 1 {
      var t := s[1..];
      UniqueSorted(t);
      assert s == [s[0]] + t;
      if s[0] != s[1] {
        var q := Unique(t);
        forall j | 1 <= j < |Unique(s)| ensures PathLess(s[0], Unique(s)[j]) {
          assert Unique(s)[j] == q[j - 1] && q[j - 1] in t;
          PathTotal(s[0], s[1]);
          PathTotal(s[0], q[j - 1]);
          PathTotal(s[1], q[j - 1]);
          if j > 1 { PathTrans(s[0], s[1], q[j - 1]); }
        }
      }
    }
  }

  /** A strictly sorted list is determined by its elements. */
  lemma {:induction false} StrictlySortedUnique(a: seq<Path>, b: seq<Path>)
    requires StrictlySorted(a) && StrictlySorted(b)
    requires forall p :: p in a <==> p in b
    ensures a == b
  {
    if a == [] || b == [] {
      var p := if a != [] then a[0] else if b != [] then b[0] else EMPTY_PATH;
      assert p in a <==> p in b;
    } else {
      assert a[0] in b;
      assert b[0] in a;
      PathTotal(a[0], b[0]);
      assert a[0] == b[0];
      forall p ensures p in a[1..] <==> p in b[1..] {
        PathTotal(p, a[0]);
        if p in a[1..] { assert p in a; assert PathLess(a[0], p); assert p in b; }
        if p in b[1..] { assert p in b; assert PathLess(b[0], p); assert p in a; }
      }
      StrictlySortedUnique(a[1..], b[1..]);
      assert a == [a[0]] + a[1..] && b == [b[0]] + b[1..];
    }
  }

  // ---- Set difference ----

  /** The merge walk of `std::set_difference` with `path::operator<`, on any two lists. */
  function Difference(a: seq<Path>, b: seq<Path>): (r: seq<Path>)
    decreases |a| + |b|
  {
    if a == [] then []
    else if b == [] then a
    else if PathLess(a[0], b[0]) then [a[0]] + Difference(a[1..], b)
    else if PathLess(b[0], a[0]) then Difference(a, b[1..])
    else Difference(a[1..], b[1..])
  }

  /** The elements of `b` that no earlier element exceeds: all of them when `b` is sorted. */
  function Records(b: seq<Path>): (r: seq<Path>) {
    RecordsFrom(b, [])
  }

  /** `top` holds the greatest element seen so far, or nothing. */
  function RecordsFrom(b: seq<Path>, top: seq<Path>): (r: seq<Path>)
    requires |top| <= 1
  {
    if b == [] then []
    else if top != [] && PathLess(b[0], top[0]) then RecordsFrom(b[1..], top)
    else [b[0]] + RecordsFrom(b[1..], [b[0]])
  }

  /** Raising the bar only loses records below the bar. */
  lemma {:induction false} RecordsAbove(b: seq<Path>, top: seq<Path>, bar: Path, x: Path)
    requires |top| <= 1
    requires top != [] ==> PathLeq(top[0], bar)
    requires PathLeq(bar, x)
    ensures multiset(RecordsFrom(b, top))[x] == multiset(RecordsFrom(b, [bar]))[x]
  {
    if b != [] {
      var h, t := b[0], b[1..];
      if PathLess(h, bar) {
        PathTotal(h, x);
        PathTotal(bar, x);
        if h == x || PathLess(x, h) { PathLeqTrans(bar, x, h); PathTotal(h, bar); }
        assert h != x;
        if top != [] && PathLess(h, top[0]) {
          RecordsAbove(t, top, bar, x);
        } else {
          PathTotal(h, bar);
          RecordsAbove(t, [h], bar, x);
        }
      } else if top != [] && PathLess(h, top[0]) {
        PathTotal(top[0], bar);
        PathTotal(h, top[0]);
        PathLeqTrans(top[0], bar, h);
        assert false;
      }
    }
  }

  lemma {:induction false} NothingBelow(a: seq<Path>, x: Path)
    requires Sorted(a) && a != [] && PathLess(x, a[0])
    ensures multiset(a)[x] == 0
  {
    PathTotal(x, a[0]);
    forall i | 0 <= i < |a| ensures a[i] != x {
      if i > 0 { assert PathLeq(a[0], a[i]); }
    }
  }

  lemma RecordsAtLeast(b: seq<Path>, bar: Path, x: Path)
    requires x in RecordsFrom(b, [bar])
    ensures PathLeq(bar, x)
  {
    if PathLess(b[0], bar) {
      RecordsAtLeast(b[1..], bar, x);
    } else if x != b[0] {
      RecordsAtLeast(b[1..], b[0], x);
      PathLeqTrans(bar, b[0], x);
    }
  }

  function Monus(m: nat, n: nat): nat {
    if m < n then 0 else m - n
  }

  /** How often the walk reports a path: as often as it is requested beyond the records of `b`. */
  lemma {:induction false} DifferenceCounts(a: seq<Path>, b: seq<Path>, x: Path)
    requires Sorted(a)
    ensures multiset(Difference(a, b))[x] == Monus(multiset(a)[x], multiset(Records(b))[x])
    decreases |a| + |b|
  {
    hide PathLess;
    if a != [] && b != [] {
      var h := b[0];
      PathTotal(a[0], h);
      assert a == [a[0]] + a[1..];
      assert Records(b) == [h] + RecordsFrom(b[1..], [h]);
      if PathLess(a[0], h) {
        DifferenceCounts(a[1..], b, x);
        if x == a[0] {
          if x in RecordsFrom(b[1..], [h]) { RecordsAtLeast(b[1..], h, x); }
          assert multiset(Records(b))[x] == 0;
        }
      } else {
        if PathLess(x, h) {
          if PathLess(h, a[0]) { PathTrans(x, h, a[0]); }
          NothingBelow(a, x);
        } else {
          RecordsAbove(b[1..], [], h, x);
        }
        if PathLess(h, a[0]) {
          DifferenceCounts(a, b[1..], x);
          if x == h { NothingBelow(a, x); }
        } else {
          DifferenceCounts(a[1..], b[1..], x);
        }
      }
    }
  }

  /** Main result on the walk: for a sorted request it computes the multiset difference
      from the records of the second list, sorted or not. */
  lemma DifferenceIsMinusRecords(a: seq<Path>, b: seq<Path>)
    requires Sorted(a)
    ensures multiset(Difference(a, b)) == multiset(a) - multiset(Records(b))
  {
    forall x ensures multiset(Difference(a, b))[x] == (multiset(a) - multiset(Records(b)))[x] {
      DifferenceCounts(a, b, x);
    }
  }

  lemma {:induction false} RecordsOfSorted(b: seq<Path>, top: seq<Path>)
    requires |top| <= 1
    requires Sorted(top + b)
    ensures RecordsFrom(b, top) == b
  {
    if b != [] {
      var s := top + b;
      if top != [] { assert s[0] == top[0] && s[1] == b[0] && PathLeq(s[0], s[1]); }
      assert [b[0]] + b[1..] == b;
      assert Sorted([b[0]] + b[1..]) by {
        forall i, j | 0 <= i < j < |b| ensures PathLeq(b[i], b[j]) {
          assert b[i] == s[i + |top|] && b[j] == s[j + |top|];
        }
      }
      RecordsOfSorted(b[1..], [b[0]]);
    }
  }

  lemma {:induction false} RecordsSorted(b: seq<Path>, top: seq<Path>)
    requires |top| <= 1
    ensures Sorted(top + RecordsFrom(b, top))
    ensures |RecordsFrom(b, top)| <= |b|
  {
    if b != [] {
      if top != [] && PathLess(b[0], top[0]) {
        RecordsSorted(b[1..], top);
      } else {
        RecordsSorted(b[1..], [b[0]]);
        var r := [b[0]] + RecordsFrom(b[1..], [b[0]]);
        var s := top + r;
        forall i, j | 0 <= i < j < |s| ensures PathLeq(s[i], s[j]) {
          if i < |top| {
            PathTotal(b[0], b[0]);
            assert s[j] == r[j - 1];
            assert j > 1 ==> PathLeq(r[0], r[j - 1]);
            PathLeqTrans(top[0], b[0], r[j - 1]);
          } else {
            assert s[i] == r[i - |top|] && s[j] == r[j - |top|];
          }
        }
      }
    }
  }

  lemma {:induction false} RecordsLost(b: seq<Path>, top: seq<Path>)
    requires |top| <= 1
    requires |RecordsFrom(b, top)| == |b|
    ensures RecordsFrom(b, top) == b
  {
    if b != [] {
      if top != [] && PathLess(b[0], top[0]) {
        RecordsSorted(b[1..], top);
        assert false;
      } else {
        RecordsLost(b[1..], [b[0]]);
      }
    }
  }

  /** Only a sorted list consists of records alone. */
  lemma AllRecordsMeansSorted(b: seq<Path>)
    ensures multiset(b) <= multiset(Records(b)) <==> Sorted(b)
  {
    if Sorted(b) {
      assert [] + b == b;
      RecordsOfSorted(b, []);
    }
    if multiset(b) <= multiset(Records(b)) {
      var r := Records(b);
      RecordsSorted(b, []);
      assert |multiset(r) - multiset(b)| == |multiset(r)| - |multiset(b)|;
      RecordsLost(b, []);
      assert [] + r == r;
    }
  }

  /** The walk is the multiset difference for every sorted request exactly when `b` is sorted. */
  lemma DifferenceExactIffSorted(b: seq<Path>)
    ensures (forall a :: Sorted(a) ==> multiset(Difference(a, b)) == multiset(a) - multiset(b)) <==> Sorted(b)
  {
    AllRecordsMeansSorted(b);
    if Sorted(b) {
      assert [] + b == b;
      RecordsOfSorted(b, []);
      forall a | Sorted(a) ensures multiset(Difference(a, b)) == multiset(a) - multiset(b) {
        DifferenceIsMinusRecords(a, b);
      }
    }
    if forall a :: Sorted(a) ==> multiset(Difference(a, b)) == multiset(a) - multiset(b) {
      SortedCopy(b);
      var a :| Sorted(a) && multiset(a) == multiset(b);
      DifferenceIsMinusRecords(a, b);
      NoneMissing(multiset(b), multiset(Records(b)));
    }
  }

  lemma NoneMissing<T>(a: multiset<T>, b: multiset<T>)
    requires a - b == multiset{}
    ensures a <= b
  {
    forall x ensures a[x] <= b[x] {
      assert (a - b)[x] == 0;
    }
  }

  function Insert(x: Path, s: seq<Path>): seq<Path> {
    if s == [] || PathLeq(x, s[0]) then [x] + s else [s[0]] + Insert(x, s[1..])
  }

  lemma ConsKeepsSorted(x: Path, s: seq<Path>)
    requires Sorted(s) && forall j :: 0 <= j < |s| ==> PathLeq(x, s[j])
    ensures Sorted([x] + s)
  {
    hide PathLeq;
  }

  lemma {:induction false} InsertKeepsSorted(x: Path, s: seq<Path>)
    requires Sorted(s)
    ensures Sorted(Insert(x, s)) && multiset(Insert(x, s)) == multiset(s) + multiset{x}
  {
    hide PathLess;
    if s == [] {
    } else if PathLeq(x, s[0]) {
      forall j | 0 <= j < |s| ensures PathLeq(x, s[j]) {
        if j > 0 { PathLeqTrans(x, s[0], s[j]); }
      }
      ConsKeepsSorted(x, s);
    } else {
      var rest := s[1..];
      InsertKeepsSorted(x, rest);
      var q := Insert(x, rest);
      assert s == [s[0]] + rest;
      PathTotal(x, s[0]);
      forall j | 0 <= j < |q| ensures PathLeq(s[0], q[j]) {
        assert q[j] in multiset(q);
        assert q[j] == x || q[j] in rest;
      }
      ConsKeepsSorted(s[0], q);
    }
  }

  /** Every list has a sorted permutation. */
  lemma {:induction false} SortedCopy(b: seq<Path>)
    ensures exists a :: Sorted(a) && multiset(a) == multiset(b)
  {
    if b == [] {
      assert Sorted(b);
    } else {
      SortedCopy(b[1..]);
      var t :| Sorted(t) && multiset(t) == multiset(b[1..]);
      InsertKeepsSorted(b[0], t);
      assert b == [b[0]] + b[1..];
      assert multiset(Insert(b[0], t)) == multiset(b);
    }
  }
}
