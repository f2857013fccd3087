// Paths as std::filesystem sees them: an optional root directory followed by
// file names, each name a sequence of bytes.
//
// Two orders matter to the service.  The C++ code compares paths name by name
// (`PathLess`); the database orders the text of paths byte by byte (`TextLess`).
module Paths {
  type Byte = b: nat | b < 256
  type Name = seq<Byte>

  const SLASH: Byte := 47
  const DOT: Byte := 46

  datatype Path = Path(absolute: bool, names: seq<Name>)

  const EMPTY_PATH := Path(false, [])

  /** A path as the parser of path text produces it: no separator inside a name,
      and an empty name only at the very end, where it stands for a trailing separator. */
  ghost predicate WellFormed(p: Path) {
    && (forall n :: n in p.names ==> SLASH !in n)
    && (forall k :: 0 <= k < |p.names| && p.names[k] == [] ==> 1 <= k == |p.names| - 1)
  }

  ghost predicate AllWellFormed(paths: seq<Path>) {
    forall i :: 0 <= i < |paths| ==> WellFormed(paths[i])
  }

  /** Whether an absolute path equals its own lexically normal form. */
  predicate IsNormal(p: Path) {
    && [DOT] !in p.names
    && [DOT, DOT] !in p.names
    && forall k :: 0 <= k < |p.names| && p.names[k] == [] ==> 1 <= k == |p.names| - 1
  }

  // ---- Orders ----

  predicate NameLess(a: Name, b: Name) {
    b != [] && (a == [] || a[0] < b[0] || (a[0] == b[0] && NameLess(a[1..], b[1..])))
  }

  predicate NamesLess(a: seq<Name>, b: seq<Name>) {
    b != [] && (a == [] || NameLess(a[0], b[0]) || (a[0] == b[0] && NamesLess(a[1..], b[1..])))
  }

  predicate PathLess(p: Path, q: Path) {
    (!p.absolute && q.absolute) || (p.absolute == q.absolute && NamesLess(p.names, q.names))
  }

  predicate PathLeq(p: Path, q: Path) {
    !PathLess(q, p)
  }

  /** Each name preceded by a separator. */
  function JoinTail(names: seq<Name>): Name {
    if names == [] then [] else [SLASH] + names[0] + JoinTail(names[1..])
  }

  /** The text stored in the database. */
  function Text(p: Path): Name {
    if p.absolute then
      if p.names == [] then [SLASH] else JoinTail(p.names)
    else
      if p.names == [] then [] else p.names[0] + JoinTail(p.names[1..])
  }

  predicate TextLess(p: Path, q: Path) {
    NameLess(Text(p), Text(q))
  }

  // ---- The name-wise order is total ----

  lemma {:induction false} NameTotal(a: Name, b: Name)
    ensures NameLess(a, b) || a == b || NameLess(b, a)
    ensures !(NameLess(a, b) && NameLess(b, a))
    ensures a == b ==> !NameLess(a, b)
  {
    if a != [] && b != [] {
      NameTotal(a[1..], b[1..]);
      assert a == [a[0]] + a[1..] && b == [b[0]] + b[1..];
    }
  }

  lemma {:induction false} NameTrans(a: Name, b: Name, c: Name)
    requires NameLess(a, b) && NameLess(b, c)
    ensures NameLess(a, c)
  {
    if a != [] && a[0] == b[0] == c[0] {
      NameTrans(a[1..], b[1..], c[1..]);
    }
  }

  lemma {:induction false} NamesTotal(a: seq<Name>, b: seq<Name>)
    ensures NamesLess(a, b) || a == b || NamesLess(b, a)
    ensures !(NamesLess(a, b) && NamesLess(b, a))
    ensures a == b ==> !NamesLess(a, b)
  {
    if a != [] && b != [] {
      NameTotal(a[0], b[0]);
      NamesTotal(a[1..], b[1..]);
      assert a == [a[0]] + a[1..] && b == [b[0]] + b[1..];
    }
  }

  lemma {:induction false} NamesTrans(a: seq<Name>, b: seq<Name>, c: seq<Name>)
    requires NamesLess(a, b) && NamesLess(b, c)
    ensures NamesLess(a, c)
  {
    if a != [] {
      NameTotal(a[0], b[0]);
      NameTotal(b[0], c[0]);
      if a[0] == b[0] && b[0] == c[0] {
        NamesTrans(a[1..], b[1..], c[1..]);
      } else if a[0] != b[0] && b[0] != c[0] {
        NameTrans(a[0], b[0], c[0]);
      }
    }
  }

  /** `path::operator<` is a strict total order whose equality is path equality. */
  lemma PathTotal(p: Path, q: Path)
    ensures PathLess(p, q) || p == q || PathLess(q, p)
    ensures !(PathLess(p, q) && PathLess(q, p))
    ensures p == q ==> !PathLess(p, q)
  {
    NamesTotal(p.names, q.names);
  }

  lemma PathTrans(p: Path, q: Path, r: Path)
    requires PathLess(p, q) && PathLess(q, r)
    ensures PathLess(p, r)
  {
    if p.absolute == q.absolute && q.absolute == r.absolute {
      NamesTrans(p.names, q.names, r.names);
    }
  }

  lemma PathLeqTrans(p: Path, q: Path, r: Path)
    requires PathLeq(p, q) && PathLeq(q, r)
    ensures PathLeq(p, r)
  {
    PathTotal(p, q);
    PathTotal(q, r);
    PathTotal(p, r);
    if PathLess(r, p) {
      if p != q { PathTrans(r, p, q); }
    }
  }

  /** `a` and `b` agree up to `k`; there `a` ends or has the smaller byte. */
  ghost predicate LessAt(a: Name, b: Name, k: nat) {
    k <= |a| && k < |b| && a[..k] == b[..k] && (k == |a| || a[k] < b[k])
  }

  /** Names are ordered by their first different byte. */
  lemma {:induction false} NameLessAtDifference(a: Name, b: Name)
    ensures NameLess(a, b) <==> exists k :: LessAt(a, b, k)
  {
    if a == [] {
      assert b != [] ==> LessAt(a, b, 0);
    } else if b != [] {
      NameLessAtDifference(a[1..], b[1..]);
      if a[0] < b[0] { assert LessAt(a, b, 0); }
      if a[0] == b[0] {
        if k: nat :| LessAt(a[1..], b[1..], k) {
          assert a[..k + 1] == [a[0]] + a[1..][..k] && b[..k + 1] == [b[0]] + b[1..][..k];
          assert LessAt(a, b, k + 1);
        }
      }
      if k: nat :| LessAt(a, b, k) {
        if k > 0 {
          assert a[..k][0] == b[..k][0];
          assert a[1..][..k - 1] == a[..k][1..] && b[1..][..k - 1] == b[..k][1..];
          assert LessAt(a[1..], b[1..], k - 1);
        }
      }
    }
  }

  ghost predicate NamesLessAt(a: seq<Name>, b: seq<Name>, k: nat) {
    k <= |a| && k < |b| && a[..k] == b[..k] && (k == |a| || NameLess(a[k], b[k]))
  }

  /** Paths of one kind are ordered by their first different name. */
  lemma {:induction false} NamesLessAtDifference(a: seq<Name>, b: seq<Name>)
    ensures NamesLess(a, b) <==> exists k :: NamesLessAt(a, b, k)
  {
    hide NameLess;
    if a == [] {
      assert b != [] ==> NamesLessAt(a, b, 0);
    } else if b != [] {
      NamesLessAtDifference(a[1..], b[1..]);
      if NameLess(a[0], b[0]) { assert NamesLessAt(a, b, 0); }
      if a[0] == b[0] {
        if k: nat :| NamesLessAt(a[1..], b[1..], k) {
          assert a[..k + 1] == [a[0]] + a[1..][..k] && b[..k + 1] == [b[0]] + b[1..][..k];
          assert NamesLessAt(a, b, k + 1);
        }
      }
      if k: nat :| NamesLessAt(a, b, k) {
        if k > 0 {
          assert a[..k][0] == b[..k][0];
          assert a[1..][..k - 1] == a[..k][1..] && b[1..][..k - 1] == b[..k][1..];
          assert NamesLessAt(a[1..], b[1..], k - 1);
        }
      }
    }
  }

  // ---- Normal form ----

  /** A name that stays when a path is normalised. */
  predicate Plain(n: Name) {
    n != [] && n != [DOT] && n != [DOT, DOT]
  }

  /** The names left of an absolute path: "." goes, ".." takes the name before with it, and
      the root has no parent. */
  function Reduced(names: seq<Name>): (r: seq<Name>)
    ensures forall n :: n in r ==> Plain(n)
  {
    if names == [] then []
    else
      var r, last := Reduced(names[..|names| - 1]), names[|names| - 1];
      if Plain(last) then r + [last]
      else if last == [DOT, DOT] && r != [] then r[..|r| - 1]
      else r
  }

  /** `lexically_normal` of an absolute path: a separator stays at the end where the path ended
      with one, or with a name that went. */
  function NormalForm(p: Path): Path
    requires p.absolute
  {
    var r := Reduced(p.names);
    Path(true, if r != [] && !Plain(p.names[|p.names| - 1]) then r + [[]] else r)
  }

  lemma {:induction false} PlainIsReduced(names: seq<Name>)
    requires forall n :: n in names ==> Plain(n)
    ensures Reduced(names) == names
  {
    if names != [] {
      var init := names[..|names| - 1];
      PlainIsReduced(init);
      assert names == init + [names[|names| - 1]];
    }
  }

  /** The check for normal paths accepts exactly the fixed points of the normalisation. */
  lemma NormalIsFixedPoint(p: Path)
    requires p.absolute
    ensures IsNormal(p) <==> NormalForm(p) == p
  {
    var n := |p.names| - 1;
    if IsNormal(p) && n >= 0 {
      var init, last := p.names[..n], p.names[n];
      assert p.names == init + [last];
      forall k | 0 <= k < n ensures Plain(init[k]) {
        assert p.names[k] in p.names;
      }
      PlainIsReduced(init);
      assert last in p.names;
    }
    if NormalForm(p) == p {
      var r := Reduced(p.names);
      forall k | 0 <= k < |r| ensures Plain(p.names[k]) {
        assert r[k] in r;
      }
    }
  }

  // ---- How the two orders differ ----

  /** At the first difference one name is a proper prefix of the other, its path goes on,
      and the longer name continues with a byte below the separator. */
  predicate ClashNames(a: seq<Name>, b: seq<Name>) {
    && a != [] && b != []
    && if a[0] == b[0] then ClashNames(a[1..], b[1..])
       else ExtendsBelow(a, b[0]) || ExtendsBelow(b, a[0])
  }

  predicate ExtendsBelow(a: seq<Name>, n: Name)
    requires a != []
  {
    |a| > 1 && a[0] < n && n[|a[0]|] < SLASH
  }

  /** A relative path sorts before an absolute one, but its text sorts after
      as soon as it starts with a byte above the separator. */
  predicate Clash(p: Path, q: Path) {
    if p.absolute == q.absolute then ClashNames(p.names, q.names)
    else
      var r := if p.absolute then q else p;
      r.names != [] && r.names[0] != [] && r.names[0][0] > SLASH
  }

  lemma {:induction false} NameLessPrefix(x: Name, u: Name, v: Name)
    ensures NameLess(x + u, x + v) == NameLess(u, v)
  {
    if x == [] {
      assert x + u == u && x + v == v;
    } else {
      NameLessPrefix(x[1..], u, v);
      assert (x + u)[1..] == x[1..] + u && (x + v)[1..] == x[1..] + v;
    }
  }

  /** Two names of which neither is a prefix of the other decide the order of any extensions. */
  lemma {:induction false} NameLessDecided(n: Name, m: Name, u: Name, v: Name)
    requires !(n <= m) && !(m <= n)
    ensures NameLess(n + u, m + v) == NameLess(n, m)
  {
    assert (n + u)[0] == n[0] && (m + v)[0] == m[0];
    if n[0] == m[0] {
      assert n == [n[0]] + n[1..] && m == [m[0]] + m[1..];
      assert (n + u)[1..] == n[1..] + u && (m + v)[1..] == m[1..] + v;
      NameLessDecided(n[1..], m[1..], u, v);
    }
  }

  ghost predicate NoSlash(names: seq<Name>) {
    forall n :: n in names ==> SLASH !in n
  }

  lemma ProperPrefixLess(n: Name, m: Name)
    requires n < m
    ensures NameLess(n, m)
  {
    NameLessPrefix(n, [], m[|n|..]);
    assert n + [] == n && n + m[|n|..] == m;
  }

  /** Heads that differ, the first a proper prefix of the second. */
  lemma HeadPrefix(a: seq<Name>, b: seq<Name>)
    requires a != [] && b != [] && NoSlash(a) && NoSlash(b) && a[0] < b[0]
    ensures NameLess(a[0] + JoinTail(a[1..]), b[0] + JoinTail(b[1..])) <==> !ExtendsBelow(a, b[0])
    ensures NameLess(b[0] + JoinTail(b[1..]), a[0] + JoinTail(a[1..])) <==> ExtendsBelow(a, b[0])
  {
    var n, m := a[0], b[0];
    var u, v := JoinTail(a[1..]), JoinTail(b[1..]);
    var w := m[|n|..] + v;
    assert m + v == n + w;
    NameLessPrefix(n, u, w);
    NameLessPrefix(n, w, u);
    assert w[0] == m[|n|] && m[|n|] in m && m in b;
  }

  /** Paths with different first names are ordered by these names, unless they clash. */
  lemma HeadsDiffer(a: seq<Name>, b: seq<Name>)
    requires a != [] && b != [] && NoSlash(a) && NoSlash(b) && a[0] != b[0]
    ensures var s, t := a[0] + JoinTail(a[1..]), b[0] + JoinTail(b[1..]);
            && ((NameLess(s, t) == NameLess(a[0], b[0])) <==> !(ExtendsBelow(a, b[0]) || ExtendsBelow(b, a[0])))
            && (NameLess(s, t) || NameLess(t, s))
  {
    hide JoinTail;
    var n, m := a[0], b[0];
    NameTotal(n, m);
    if n < m {
      ProperPrefixLess(n, m);
      HeadPrefix(a, b);
    } else if m < n {
      ProperPrefixLess(m, n);
      HeadPrefix(b, a);
    } else {
      NameLessDecided(n, m, JoinTail(a[1..]), JoinTail(b[1..]));
      NameLessDecided(m, n, JoinTail(b[1..]), JoinTail(a[1..]));
    }
  }

  lemma {:induction false} JoinBridge(a: seq<Name>, b: seq<Name>)
    requires NoSlash(a) && NoSlash(b) && a != b
    ensures (NameLess(JoinTail(a), JoinTail(b)) == NamesLess(a, b)) <==> !ClashNames(a, b)
    ensures NameLess(JoinTail(a), JoinTail(b)) || NameLess(JoinTail(b), JoinTail(a))
  {
    hide ExtendsBelow;
    if a != [] && b != [] {
      var n, m := a[0], b[0];
      var u, v := JoinTail(a[1..]), JoinTail(b[1..]);
      assert JoinTail(a) == [SLASH] + (n + u) && JoinTail(b) == [SLASH] + (m + v);
      NameLessPrefix([SLASH], n + u, m + v);
      NameLessPrefix([SLASH], m + v, n + u);
      if n == m {
        assert a == [n] + a[1..] && b == [m] + b[1..];
        NameLessPrefix(n, u, v);
        NameLessPrefix(n, v, u);
        NameTotal(n, n);
        JoinBridge(a[1..], b[1..]);
      } else {
        HeadsDiffer(a, b);
      }
    }
  }

  lemma RootBridge(p: Path, q: Path)
    requires WellFormed(p) && WellFormed(q) && p != q && p.absolute && q.absolute
    ensures (TextLess(p, q) == PathLess(p, q)) <==> !Clash(p, q)
    ensures TextLess(p, q) || TextLess(q, p)
  {
    if p.names == [] || q.names == [] {
      var r := if p.names == [] then q else p;
      assert r.names[0] != [];
      assert Text(r) == [SLASH] + (r.names[0] + JoinTail(r.names[1..]));
      NameLessPrefix([SLASH], [], r.names[0] + JoinTail(r.names[1..]));
      NameLessPrefix([SLASH], r.names[0] + JoinTail(r.names[1..]), []);
      assert [SLASH] + [] == [SLASH];
    } else {
      JoinBridge(p.names, q.names);
    }
  }

  lemma RelativeBridge(p: Path, q: Path)
    requires WellFormed(p) && WellFormed(q) && p != q && !p.absolute && !q.absolute
    ensures (TextLess(p, q) == PathLess(p, q)) <==> !Clash(p, q)
    ensures TextLess(p, q) || TextLess(q, p)
  {
    if p.names == [] || q.names == [] {
      var r := if p.names == [] then q else p;
      assert r.names[0] != [];
    } else {
      assert JoinTail(p.names) == [SLASH] + Text(p) && JoinTail(q.names) == [SLASH] + Text(q);
      NameLessPrefix([SLASH], Text(p), Text(q));
      NameLessPrefix([SLASH], Text(q), Text(p));
      JoinBridge(p.names, q.names);
    }
  }

  /** The byte order of path texts and the name-wise order of paths agree on a pair
      exactly when the pair does not clash; and distinct paths have distinct texts. */
  lemma OrderBridge(p: Path, q: Path)
    requires WellFormed(p) && WellFormed(q) && p != q
    ensures (TextLess(p, q) == PathLess(p, q)) <==> !Clash(p, q)
    ensures TextLess(p, q) || TextLess(q, p)
  {
    if p.absolute != q.absolute {
      var a, r := if p.absolute then p else q, if p.absolute then q else p;
      assert Text(a)[0] == SLASH;
      if r.names != [] {
        assert r.names[0] != [];
        assert Text(r)[0] == r.names[0][0] && r.names[0][0] in r.names[0];
      }
    } else if p.absolute {
      RootBridge(p, q);
    } else {
      RelativeBridge(p, q);
    }
  }

  /** When every byte of every name is above the separator, absolute paths never clash. */
  lemma {:induction false} HighBytesNeverClash(a: seq<Name>, b: seq<Name>)
    requires forall n, c :: (n in a || n in b) && c in n ==> c > SLASH
    ensures !ClashNames(a, b)
  {
    if a != [] && b != [] {
      assert a[0] in a && b[0] in b;
      if a[0] == b[0] {
        HighBytesNeverClash(a[1..], b[1..]);
      } else {
        assert forall k :: 0 <= k < |b[0]| ==> b[0][k] in b[0];
        assert forall k :: 0 <= k < |a[0]| ==> a[0][k] in a[0];
      }
    }
  }

  /** "/a-b" and "/a/b" are ordered differently as text and as paths. */
  lemma DashClashes(p: Path, q: Path)
    requires p == Path(true, [[97, 45, 98]]) && q == Path(true, [[97], [98]])
    ensures TextLess(p, q) && PathLess(q, p) && Clash(p, q)
  {
    assert JoinTail(p.names) == [47, 97, 45, 98] by {
      assert JoinTail(p.names[1..]) == [];
    }
    assert JoinTail(q.names) == [47, 97, 47, 98] by {
      assert q.names[1..] == [[98]];
      assert JoinTail(q.names[1..]) == [47, 98];
    }
    NameLessPrefix([47, 97], [45, 98], [47, 98]);
    assert [47, 97] + [45, 98] == [47, 97, 45, 98] && [47, 97] + [47, 98] == [47, 97, 47, 98];
    NameLessPrefix([97], [], [45, 98]);
    assert [97] + [] == [97] && [97] + [45, 98] == [97, 45, 98];
  }
}
