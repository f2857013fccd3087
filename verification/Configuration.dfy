// Acceptance of the configured storage areas.
module Configuration {
  import opened Paths
  import opened PathLists
  import opened Sorting
  import opened Resolver

  datatype LoadError = NoAreas | SameName | SharedAccessPoint | RelativeAccessPoint
  datatype Loaded = Accepted(areas: seq<StorageArea>) | Rejected(error: LoadError)

  /** Upper case of ASCII letters; area names contain no other letters. */
  function Upper(b: Byte): Byte {
    if 97 <= b <= 122 then b - 32 else b
  }

  function Fold(n: Name): (r: Name)
    ensures |r| == |n|
    ensures forall i :: 0 <= i < |n| ==> SameLetter(n[i], r[i]) && !(97 <= r[i] <= 122)
  {
    seq(|n|, i requires 0 <= i < |n| => Upper(n[i]))
  }

  /** The same byte, or the two cases of one ASCII letter. */
  predicate SameLetter(x: Byte, y: Byte) {
    x == y || (65 <= x <= 90 && y == x + 32) || (65 <= y <= 90 && x == y + 32)
  }

  predicate SameIgnoringCase(a: Name, b: Name) {
    |a| == |b| && forall i :: 0 <= i < |a| ==> SameLetter(a[i], b[i])
  }

  lemma FoldIgnoresCase(a: Name, b: Name)
    ensures Fold(a) == Fold(b) <==> SameIgnoringCase(a, b)
  {
    var m, n := Fold(a), Fold(b);
    if m == n {
      forall i | 0 <= i < |a| ensures SameLetter(a[i], b[i]) {
        assert SameLetter(a[i], m[i]) && SameLetter(b[i], n[i]);
      }
    }
    if SameIgnoringCase(a, b) {
      forall i | 0 <= i < |a| ensures m[i] == n[i] {
        assert SameLetter(a[i], m[i]) && SameLetter(b[i], n[i]) && SameLetter(a[i], b[i]);
      }
    }
  }

  /** Area names are ordered by the first letter in which they differ ignoring case, compared
      in upper case; a name precedes its extensions. */
  lemma NameOrderAtDifference(a: StorageArea, b: StorageArea)
    ensures NameOrder(a, b) <==>
              || SameIgnoringCase(a.name, b.name)
              || exists k: nat :: k <= |a.name| && k < |b.name| && SameIgnoringCase(a.name[..k], b.name[..k])
                                  && (k == |a.name| || Fold(a.name)[k] < Fold(b.name)[k])
  {
    var m, n := Fold(a.name), Fold(b.name);
    NameTotal(m, n);
    FoldIgnoresCase(a.name, b.name);
    NameLessAtDifference(m, n);
    forall k: nat | k <= |a.name| && k <= |b.name|
      ensures m[..k] == n[..k] <==> SameIgnoringCase(a.name[..k], b.name[..k])
    {
      FoldIgnoresCase(a.name[..k], b.name[..k]);
      assert Fold(a.name[..k]) == m[..k] && Fold(b.name[..k]) == n[..k];
    }
    if k: nat :| k <= |a.name| && k < |b.name| && SameIgnoringCase(a.name[..k], b.name[..k])
                 && (k == |a.name| || m[k] < n[k]) {
      assert LessAt(m, n, k);
    }
  }

  /** The order by name, ignoring case. */
  predicate NameOrder(a: StorageArea, b: StorageArea) {
    !NameLess(Fold(b.name), Fold(a.name))
  }

  lemma NameOrderIsPreorder()
    ensures TotalPreorder(NameOrder)
  {
    forall x, y ensures NameOrder(x, y) || NameOrder(y, x) {
      NameTotal(Fold(x.name), Fold(y.name));
    }
    forall x, y, z | NameOrder(x, y) && NameOrder(y, z) ensures NameOrder(x, z) {
      var a, b, c := Fold(x.name), Fold(y.name), Fold(z.name);
      NameTotal(a, b);
      NameTotal(b, c);
      NameTotal(a, c);
      if a != b && b != c { NameTrans(a, b, c); }
    }
  }

  // ---- What acceptance means ----

  ghost predicate DistinctNames(areas: seq<StorageArea>) {
    forall i, j :: 0 <= i < j < |areas| ==> !SameIgnoringCase(areas[i].name, areas[j].name)
  }

  lemma DistinctNamesByFold(areas: seq<StorageArea>)
    ensures DistinctNames(areas) <==> forall i, j :: 0 <= i < j < |areas| ==> Fold(areas[i].name) != Fold(areas[j].name)
  {
    hide Fold, SameIgnoringCase;
    forall a: Name, b: Name ensures Fold(a) == Fold(b) <==> SameIgnoringCase(a, b) {
      FoldIgnoresCase(a, b);
    }
  }

  /** All access points, area by area. */
  function Flatten(areas: seq<StorageArea>): seq<Path> {
    if areas == [] then [] else Flatten(areas[..|areas| - 1]) + areas[|areas| - 1].accessPoints
  }

  ghost predicate AllAbsolute(areas: seq<StorageArea>) {
    forall i, k :: 0 <= i < |areas| && 0 <= k < |areas[i].accessPoints| ==> areas[i].accessPoints[k].absolute
  }

  // ---- Independence of order ----

  function FoldedNames(areas: seq<StorageArea>): (r: seq<Name>)
    ensures |r| == |areas|
  {
    seq(|areas|, i requires 0 <= i < |areas| => Fold(areas[i].name))
  }

  lemma FlattenLast(a: seq<StorageArea>, x: StorageArea)
    ensures Flatten(a + [x]) == Flatten(a) + x.accessPoints
  {
    assert (a + [x])[..|a|] == a;
  }

  lemma {:induction false} FlattenAppend(a: seq<StorageArea>, b: seq<StorageArea>)
    ensures Flatten(a + b) == Flatten(a) + Flatten(b)
    decreases |b|
  {
    if b == [] {
      assert a + b == a;
    } else {
      hide Flatten;
      var c, x := b[..|b| - 1], b[|b| - 1];
      FlattenAppend(a, c);
      FlattenLast(c, x);
      FlattenLast(a + c, x);
      assert b == c + [x] && a + b == (a + c) + [x];
    }
  }

  lemma FoldedNamesAppend(a: seq<StorageArea>, b: seq<StorageArea>)
    ensures FoldedNames(a + b) == FoldedNames(a) + FoldedNames(b)
  {
    hide Fold;
  }

  lemma FlattenMiddle(a: seq<StorageArea>, x: StorageArea, b: seq<StorageArea>)
    ensures multiset(Flatten(a + [x] + b)) == multiset(Flatten(a + b)) + multiset(x.accessPoints)
  {
    hide Flatten;
    FlattenAppend(a + [x], b);
    FlattenLast(a, x);
    FlattenAppend(a, b);
  }

  lemma FoldedNamesMiddle(a: seq<StorageArea>, x: StorageArea, b: seq<StorageArea>)
    ensures multiset(FoldedNames(a + [x] + b)) == multiset(FoldedNames(a + b)) + multiset{Fold(x.name)}
  {
    hide Fold;
    FoldedNamesAppend(a + [x], b);
    FoldedNamesAppend(a, [x]);
    FoldedNamesAppend(a, b);
    assert FoldedNames([x]) == [Fold(x.name)];
  }

  lemma {:induction false} SortingKeepsContents(a: seq<StorageArea>, b: seq<StorageArea>)
    requires multiset(a) == multiset(b)
    ensures multiset(Flatten(a)) == multiset(Flatten(b))
    ensures multiset(FoldedNames(a)) == multiset(FoldedNames(b))
    decreases |a|
  {
    if a == [] {
      assert |b| == |multiset(b)| == |multiset(a)| == 0;
    } else {
      hide Flatten, Fold, FoldedNames;
      var x, rest := a[0], a[1..];
      var before, after := SharedElement(a, b);
      SortingKeepsContents(rest, before + after);
      assert a == [] + [x] + rest && [] + rest == rest;
      FlattenMiddle([], x, rest);
      FlattenMiddle(before, x, after);
      FoldedNamesMiddle([], x, rest);
      FoldedNamesMiddle(before, x, after);
    }
  }

  lemma NamesAsList(areas: seq<StorageArea>)
    ensures DistinctNames(areas) <==> Distinct(FoldedNames(areas))
  {
    hide Fold, SameIgnoringCase, DistinctNames;
    DistinctNamesByFold(areas);
    var names := FoldedNames(areas);
    assert forall i :: 0 <= i < |areas| ==> names[i] == Fold(areas[i].name);
  }

  // ---- The access points of all areas, by index ----

  function Offset(areas: seq<StorageArea>, i: nat): nat
    requires i <= |areas|
  {
    |Flatten(areas[..i])|
  }

  lemma {:induction false} FlattenAt(areas: seq<StorageArea>, i: nat, k: nat)
    requires i < |areas| && k < |areas[i].accessPoints|
    ensures Offset(areas, i) + k < Offset(areas, i + 1) <= |Flatten(areas)|
    ensures Flatten(areas)[Offset(areas, i) + k] == areas[i].accessPoints[k]
  {
    var n := |areas| - 1;
    if i == n {
      assert areas[..n + 1] == areas;
    } else {
      FlattenAt(areas[..n], i, k);
      assert areas[..n][..i] == areas[..i] && areas[..n][..i + 1] == areas[..i + 1];
    }
  }

  lemma {:induction false} FlattenFrom(areas: seq<StorageArea>, m: nat) returns (i: nat, k: nat)
    requires m < |Flatten(areas)|
    ensures i < |areas| && k < |areas[i].accessPoints| && m == Offset(areas, i) + k
  {
    var n := |areas| - 1;
    assert areas[..n + 1] == areas;
    if m < |Flatten(areas[..n])| {
      i, k := FlattenFrom(areas[..n], m);
      assert areas[..n][..i] == areas[..i];
    } else {
      i, k := n, m - |Flatten(areas[..n])|;
    }
  }

  lemma {:induction false} OffsetGrows(areas: seq<StorageArea>, i: nat, j: nat)
    requires i <= j <= |areas|
    ensures Offset(areas, i) <= Offset(areas, j)
  {
    if i < j {
      OffsetGrows(areas, i, j - 1);
      assert areas[..j][..j - 1] == areas[..j - 1];
    }
  }

  /** Distinct positions in the areas are distinct positions in the flat list. */
  lemma PositionsDiffer(areas: seq<StorageArea>, i: nat, k: nat, j: nat, l: nat)
    requires i < |areas| && k < |areas[i].accessPoints| && j < |areas| && l < |areas[j].accessPoints|
    ensures Offset(areas, i) + k == Offset(areas, j) + l ==> i == j && k == l
  {
    FlattenAt(areas, i, k);
    FlattenAt(areas, j, l);
    if i < j { OffsetGrows(areas, i + 1, j); } else if j < i { OffsetGrows(areas, j + 1, i); }
  }

  lemma DistinctFlat(areas: seq<StorageArea>)
    ensures DistinctAccessPoints(areas) <==> Distinct(Flatten(areas))
  {
    var flat := Flatten(areas);
    if DistinctAccessPoints(areas) {
      forall m, n | 0 <= m < n < |flat| ensures flat[m] != flat[n] {
        var i, k := FlattenFrom(areas, m);
        var j, l := FlattenFrom(areas, n);
        FlattenAt(areas, i, k);
        FlattenAt(areas, j, l);
      }
    }
    if Distinct(flat) {
      forall i, k, j, l | 0 <= i < |areas| && 0 <= k < |areas[i].accessPoints|
                          && 0 <= j < |areas| && 0 <= l < |areas[j].accessPoints|
                          && areas[i].accessPoints[k] == areas[j].accessPoints[l]
        ensures i == j && k == l
      {
        FlattenAt(areas, i, k);
        FlattenAt(areas, j, l);
        PositionsDiffer(areas, i, k, j, l);
      }
    }
  }

  lemma AbsoluteFlat(areas: seq<StorageArea>)
    ensures AllAbsolute(areas) <==> forall p :: p in Flatten(areas) ==> p.absolute
  {
    var flat := Flatten(areas);
    if AllAbsolute(areas) {
      forall p | p in flat ensures p.absolute {
        var m :| 0 <= m < |flat| && flat[m] == p;
        var i, k := FlattenFrom(areas, m);
        FlattenAt(areas, i, k);
      }
    }
    if forall p :: p in flat ==> p.absolute {
      forall i, k | 0 <= i < |areas| && 0 <= k < |areas[i].accessPoints| ensures areas[i].accessPoints[k].absolute {
        FlattenAt(areas, i, k);
        assert flat[Offset(areas, i) + k] in flat;
      }
    }
  }

  // ---- The loader ----

  /** `std::adjacent_find` on names: no two neighbours are equal ignoring case. */
  predicate NeighboursDiffer(areas: seq<StorageArea>) {
    forall k :: 0 <= k < |areas| - 1 ==> Fold(areas[k].name) != Fold(areas[k + 1].name)
  }

  lemma NamesBySorting(areas: seq<StorageArea>)
    requires SortedBy(areas, NameOrder)
    ensures NeighboursDiffer(areas) <==> DistinctNames(areas)
  {
    hide Fold, SameIgnoringCase, DistinctNames;
    DistinctNamesByFold(areas);
    NameOrderIsPreorder();
    if NeighboursDiffer(areas) {
      forall k | 0 <= k < |areas| - 1 ensures !NameOrder(areas[k + 1], areas[k]) {
        NameTotal(Fold(areas[k].name), Fold(areas[k + 1].name));
      }
      forall i, j | 0 <= i < j < |areas| ensures Fold(areas[i].name) != Fold(areas[j].name) {
        NeighboursSuffice(areas, NameOrder, i, j);
        NameTotal(Fold(areas[i].name), Fold(areas[j].name));
      }
    }
  }

  lemma PathsBySorting(s: seq<Path>)
    requires Sorted(s)
    ensures (forall k :: 0 <= k < |s| - 1 ==> s[k] != s[k + 1]) <==> Distinct(s)
  {
    PathLeqIsPreorder();
    if forall k :: 0 <= k < |s| - 1 ==> s[k] != s[k + 1] {
      forall k | 0 <= k < |s| - 1 ensures !PathLeq(s[k + 1], s[k]) {
        PathTotal(s[k], s[k + 1]);
      }
      forall i, j | 0 <= i < j < |s| ensures s[i] != s[j] {
        NeighboursSuffice(s, PathLeq, i, j);
        PathTotal(s[i], s[j]);
      }
    }
  }

  /** Why each rejection happens, in the order of the checks. */
  ghost predicate Deserves(parsed: seq<StorageArea>, e: LoadError) {
    match e
    case NoAreas => parsed == []
    case SameName => parsed != [] && !DistinctNames(parsed)
    case SharedAccessPoint => parsed != [] && DistinctNames(parsed) && !DistinctAccessPoints(parsed)
    case RelativeAccessPoint =>
      parsed != [] && DistinctNames(parsed) && DistinctAccessPoints(parsed) && !AllAbsolute(parsed)
  }

  /** Sorts the areas by name, then looks for equal neighbours among the names and among the
      sorted access points.  Accepts exactly the lists without a defect, as a permutation
      sorted by name; otherwise reports the first defect in the order of the checks. */
  method LoadStorageAreas(parsed: seq<StorageArea>) returns (r: Loaded)
    ensures r.Accepted? <==> parsed != [] && DistinctNames(parsed) && DistinctAccessPoints(parsed) && AllAbsolute(parsed)
    ensures r.Accepted? ==> SortedBy(r.areas, NameOrder) && multiset(r.areas) == multiset(parsed)
    ensures r.Accepted? ==> DistinctNames(r.areas) && DistinctAccessPoints(r.areas) && AllAbsolute(r.areas)
    ensures r.Rejected? ==> Deserves(parsed, r.error)
  {
    if parsed == [] {
      return Rejected(NoAreas);
    }
    NameOrderIsPreorder();
    var result := Sort(parsed, NameOrder);
    var aps := SortPaths(Flatten(result));
    SortingKeepsContents(parsed, result);
    NamesAsList(parsed);
    NamesAsList(result);
    DistinctOfPermutation(FoldedNames(parsed), FoldedNames(result));
    DistinctFlat(parsed);
    DistinctFlat(result);
    DistinctOfPermutation(Flatten(parsed), Flatten(result));
    DistinctOfPermutation(Flatten(result), aps);
    NamesBySorting(result);
    PathsBySorting(aps);
    AbsoluteFlat(parsed);
    AbsoluteFlat(result);
    assert forall p :: p in aps <==> p in multiset(aps);
    assert forall p :: p in Flatten(parsed) <==> p in multiset(Flatten(parsed));
    assert forall p :: p in Flatten(result) <==> p in multiset(Flatten(result));
    if !NeighboursDiffer(result) {
      return Rejected(SameName);
    }
    if exists k :: 0 <= k < |aps| - 1 && aps[k] == aps[k + 1] {
      return Rejected(SharedAccessPoint);
    }
    if exists p :: p in aps && !p.absolute {
      return Rejected(RelativeAccessPoint);
    }
    r := Accepted(result);
  }

  /** Accepted areas are what the resolver relies on, given what loading one area and checking
      its root establish: some access point and an absolute root. */
  lemma AcceptedIsValid(parsed: seq<StorageArea>, areas: seq<StorageArea>)
    requires forall a :: a in parsed ==> a.accessPoints != [] && a.root.absolute
    requires parsed != [] && multiset(areas) == multiset(parsed)
    requires DistinctAccessPoints(areas) && AllAbsolute(areas)
    ensures ValidAreas(areas)
  {
    assert |areas| == |multiset(areas)| == |multiset(parsed)| == |parsed|;
    forall i | 0 <= i < |areas| ensures areas[i].accessPoints != [] && areas[i].root.absolute {
      assert areas[i] in multiset(areas);
      assert areas[i] in parsed;
    }
  }
}
