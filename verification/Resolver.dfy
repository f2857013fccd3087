// From logical to physical paths: the storage area whose access point is the longest
// prefix of the path.
module Resolver {
  import opened Options
  import opened Paths

  datatype StorageArea = StorageArea(name: Name, root: Path, accessPoints: seq<Path>)

  /** What iterating over a path yields: the root directory, if any, then the names. */
  function Elements(p: Path): seq<Name> {
    (if p.absolute then [[SLASH]] else []) + p.names
  }

  /** What the loader and the root check guarantee of the configured areas. */
  ghost predicate ValidAreas(areas: seq<StorageArea>) {
    && areas != []
    && (forall i :: 0 <= i < |areas| ==> areas[i].accessPoints != [] && areas[i].root.absolute)
    && (forall i, k :: 0 <= i < |areas| && 0 <= k < |areas[i].accessPoints| ==> areas[i].accessPoints[k].absolute)
    && DistinctAccessPoints(areas)
  }

  /** No access point occurs twice, within an area or across areas. */
  ghost predicate DistinctAccessPoints(areas: seq<StorageArea>) {
    forall i, k, j, l ::
      (&& 0 <= i < |areas| && 0 <= k < |areas[i].accessPoints|
       && 0 <= j < |areas| && 0 <= l < |areas[j].accessPoints|
       && areas[i].accessPoints[k] == areas[j].accessPoints[l])
      ==> i == j && k == l
  }

  // ---- The computation ----

  function PrefixMatch(path: Path, ap: Path): Option<nat> {
    if Elements(ap) <= Elements(path) then Some(|Elements(ap)|) else None
  }

  /** Comparison of optionals: nothing is less than anything. */
  predicate Shorter(a: Option<nat>, b: Option<nat>) {
    b.Some? && (a.None? || a.value < b.value)
  }

  /** `std::max_element`: the first access point of greatest match. */
  function BestAccessPoint(path: Path, aps: seq<Path>): (ap: Path)
    requires aps != []
    ensures ap in aps
    ensures forall x :: x in aps ==> !Shorter(PrefixMatch(path, ap), PrefixMatch(path, x))
  {
    if |aps| == 1 then aps[0]
    else
      var best := BestAccessPoint(path, aps[1..]);
      assert forall x :: x in aps <==> x == aps[0] || x in aps[1..];
      if Shorter(PrefixMatch(path, aps[0]), PrefixMatch(path, best)) then best else aps[0]
  }

  datatype BestMatch = BestMatch(size: nat, accessPoint: Path, area: StorageArea)

  function AreaMatch(path: Path, area: StorageArea): Option<BestMatch>
    requires area.accessPoints != []
  {
    var ap := BestAccessPoint(path, area.accessPoints);
    match PrefixMatch(path, ap)
    case Some(size) => Some(BestMatch(size, ap, area))
    case None => None
  }

  function SizeOf(m: Option<BestMatch>): Option<nat> {
    if m.Some? then Some(m.value.size) else None
  }

  /** `std::max` on optional matches. */
  function Longer(a: Option<BestMatch>, b: Option<BestMatch>): Option<BestMatch> {
    if Shorter(SizeOf(a), SizeOf(b)) then b else a
  }

  /** `std::transform_reduce` may combine the areas and the initial value in any order
      and with any grouping: a reduction is any such tree. */
  datatype Reduction = Init | Leaf(area: StorageArea) | Combine(left: Reduction, right: Reduction)

  function Leaves(t: Reduction): set<StorageArea> {
    match t
    case Init => {}
    case Leaf(area) => {area}
    case Combine(l, r) => Leaves(l) + Leaves(r)
  }

  ghost predicate Usable(t: Reduction) {
    forall area :: area in Leaves(t) ==> area.accessPoints != []
  }

  function Evaluate(t: Reduction, path: Path): Option<BestMatch>
    requires Usable(t)
  {
    match t
    case Init => None
    case Leaf(area) => assert area in Leaves(t); AreaMatch(path, area)
    case Combine(l, r) =>
      assert Leaves(l) <= Leaves(t) && Leaves(r) <= Leaves(t);
      Longer(Evaluate(l, path), Evaluate(r, path))
  }

  /** `operator/`: a trailing separator of the root is not doubled. */
  function Append(root: Path, names: seq<Name>): Path {
    Path(root.absolute, Stem(root.names) + names)
  }

  function Stem(names: seq<Name>): (r: seq<Name>)
    ensures r <= names
  {
    if names != [] && names[|names| - 1] == [] then names[..|names| - 1] else names
  }

  /** The path relative to the matched access point, placed below the root of the area. */
  function Place(path: Path, m: Option<BestMatch>): Path {
    if m.None? || |m.value.accessPoint.names| > |path.names| then EMPTY_PATH
    else
      var rest := path.names[|m.value.accessPoint.names|..];
      if rest == [] || rest == [[]] then m.value.area.root
      else Append(m.value.area.root, rest)
  }

  function ResolveBy(t: Reduction, path: Path): Path
    requires Usable(t)
  {
    if !path.absolute || !IsNormal(path) then EMPTY_PATH else Place(path, Evaluate(t, path))
  }

  function LeftToRight(areas: seq<StorageArea>): (t: Reduction)
    ensures forall area :: area in Leaves(t) <==> area in areas
  {
    if areas == [] then Init
    else Combine(LeftToRight(areas[..|areas| - 1]), Leaf(areas[|areas| - 1]))
  }

  function Resolve(areas: seq<StorageArea>, path: Path): Path
    requires ValidAreas(areas)
  {
    ResolveBy(LeftToRight(areas), path)
  }

  // ---- What it means ----

  predicate Covers(area: StorageArea, ap: Path, path: Path) {
    ap in area.accessPoints && Elements(ap) <= Elements(path)
  }

  /** No access point of any area that is a prefix of the path is longer than `ap`. */
  ghost predicate LongestAmong(areas: set<StorageArea>, area: StorageArea, ap: Path, path: Path) {
    && area in areas && Covers(area, ap, path)
    && forall other, bp :: other in areas && Covers(other, bp, path) ==> |Elements(bp)| <= |Elements(ap)|
  }

  ghost predicate Unmatched(areas: set<StorageArea>, path: Path) {
    forall area, ap :: area in areas ==> !Covers(area, ap, path)
  }

  /** Any reduction finds a longest match of its areas, or none if there is none. */
  lemma {:induction false} EvaluateFindsLongest(t: Reduction, path: Path)
    requires Usable(t)
    ensures match Evaluate(t, path)
            case None => Unmatched(Leaves(t), path)
            case Some(m) => LongestAmong(Leaves(t), m.area, m.accessPoint, path) && m.size == |Elements(m.accessPoint)|
  {
    match t
    case Init =>
    case Leaf(area) =>
      assert area in Leaves(t);
      forall ap | Covers(area, ap, path)
        ensures Evaluate(t, path).Some? && |Elements(ap)| <= Evaluate(t, path).value.size
      {
        assert !Shorter(PrefixMatch(path, BestAccessPoint(path, area.accessPoints)), PrefixMatch(path, ap));
      }
    case Combine(l, r) =>
      assert Leaves(l) <= Leaves(t) && Leaves(r) <= Leaves(t);
      EvaluateFindsLongest(l, path);
      EvaluateFindsLongest(r, path);
  }

  /** With access points pairwise distinct over all areas, the longest match is unique. */
  lemma LongestIsUnique(areas: seq<StorageArea>, leaves: set<StorageArea>, a: StorageArea, ap: Path, b: StorageArea, bp: Path, path: Path)
    requires ValidAreas(areas)
    requires forall x :: x in leaves <==> x in areas
    requires LongestAmong(leaves, a, ap, path) && LongestAmong(leaves, b, bp, path)
    ensures a == b && ap == bp
  {
    assert |Elements(ap)| == |Elements(bp)|;
    assert Elements(ap) == Elements(path)[..|Elements(ap)|] == Elements(bp);
    var i :| 0 <= i < |areas| && areas[i] == a;
    var k :| 0 <= k < |a.accessPoints| && a.accessPoints[k] == ap;
    var j :| 0 <= j < |areas| && areas[j] == b;
    var l :| 0 <= l < |b.accessPoints| && b.accessPoints[l] == bp;
    assert areas[i].accessPoints[k].absolute && areas[j].accessPoints[l].absolute;
    assert ap.names == Elements(ap)[1..] && bp.names == Elements(bp)[1..];
    assert ap == bp;
  }

  /** Main result: however the areas are ordered and grouped, the answer is the same. */
  lemma ResolveIndependentOfOrder(areas: seq<StorageArea>, t: Reduction, path: Path)
    requires ValidAreas(areas)
    requires forall area :: area in Leaves(t) <==> area in areas
    ensures Usable(t) && ResolveBy(t, path) == Resolve(areas, path)
  {
    var u := LeftToRight(areas);
    EvaluateFindsLongest(t, path);
    EvaluateFindsLongest(u, path);
    assert Leaves(t) == Leaves(u);
    var m, n := Evaluate(t, path), Evaluate(u, path);
    if m.Some? && n.Some? {
      LongestIsUnique(areas, Leaves(t), m.value.area, m.value.accessPoint, n.value.area, n.value.accessPoint, path);
    }
  }

  /** Main result: the empty path answers exactly the paths that are relative, not normal or
      below no access point; any other path is moved from the longest access point that is a
      prefix of it to the root of that access point's area. */
  lemma ResolveIsLongestPrefix(areas: seq<StorageArea>, path: Path)
    requires ValidAreas(areas)
    ensures var leaves := set a | a in areas;
            var r := Resolve(areas, path);
            if !path.absolute || !IsNormal(path) || Unmatched(leaves, path) then r == EMPTY_PATH
            else r.absolute && exists area, ap :: LongestAmong(leaves, area, ap, path) && MovedBelow(path, ap, area.root, r)
  {
    hide MovedBelow, IsNormal;
    var u := LeftToRight(areas);
    EvaluateFindsLongest(u, path);
    var leaves := set a | a in areas;
    assert Leaves(u) == leaves;
    var m := Evaluate(u, path);
    if path.absolute && IsNormal(path) && m.Some? {
      var area, ap := m.value.area, m.value.accessPoint;
      assert area in areas && ap in area.accessPoints;
      assert ap.absolute && area.root.absolute;
      PlacedBelow(path, m.value);
    }
  }

  lemma PlacedBelow(path: Path, m: BestMatch)
    requires path.absolute && IsNormal(path) && m.accessPoint.absolute
    requires Elements(m.accessPoint) <= Elements(path)
    ensures MovedBelow(path, m.accessPoint, m.area.root, Place(path, Some(m)))
    ensures m.area.root.absolute ==> Place(path, Some(m)).absolute
  {
    var ap, root := m.accessPoint, m.area.root;
    assert ap.names == Elements(ap)[1..] && path.names == Elements(path)[1..];
    assert ap.names <= path.names;
    var rest := path.names[|ap.names|..];
    AppendEndsWith(root, rest);
  }

  lemma AppendEndsWith(root: Path, rest: seq<Name>)
    ensures EndsWith(Append(root, rest), root, rest)
  {
    var r, stem := Append(root, rest), Stem(root.names);
    assert r.names[|stem|..] == rest && r.names[..|stem|] == stem;
  }

  /** `r` is as absolute as `root`, its last names are `rest`, and the names before are those
      of `root`, of which only a trailing separator may be missing. */
  ghost predicate EndsWith(r: Path, root: Path, rest: seq<Name>) {
    && r.absolute == root.absolute
    && |rest| <= |r.names|
    && var k := |r.names| - |rest|;
       && r.names[k..] == rest
       && root.names == r.names[..k] + (if root.names != [] && root.names[|root.names| - 1] == [] then [[]] else [])
  }

  /** `r` is `path` with the prefix `ap` replaced by `root`; it never leaves `root`,
      because no name of what remains leads upwards. */
  ghost predicate MovedBelow(path: Path, ap: Path, root: Path, r: Path) {
    && ap.names <= path.names
    && var rest := path.names[|ap.names|..];
       && (if rest == [] || rest == [[]] then r == root else EndsWith(r, root, rest))
       && [DOT, DOT] !in rest
  }
}
