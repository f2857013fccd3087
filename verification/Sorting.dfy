// The standard algorithms the service relies on, with the contracts it needs.
module Sorting {
  ghost predicate TotalPreorder<T(!new)>(le: (T, T) -> bool) {
    && (forall x, y :: le(x, y) || le(y, x))
    && (forall x, y, z :: le(x, y) && le(y, z) ==> le(x, z))
  }

  ghost predicate SortedBy<T>(s: seq<T>, le: (T, T) -> bool) {
    forall i, j :: 0 <= i < j < |s| ==> le(s[i], s[j])
  }

  lemma Between<T>(a: seq<T>, x: T, b: seq<T>, le: (T, T) -> bool)
    requires SortedBy(a + b, le)
    requires forall j :: 0 <= j < |a| ==> le(a[j], x)
    requires forall j :: 0 <= j < |b| ==> le(x, b[j])
    ensures SortedBy(a + [x] + b, le)
    ensures multiset(a + [x] + b) == multiset(a + b) + multiset{x}
  {
    var s, r := a + b, a + [x] + b;
    forall i, j | 0 <= i < j < |r| ensures le(r[i], r[j]) {
      if i < |a| && j < |a| {
        assert r[i] == s[i] && r[j] == s[j];
      } else if i < |a| && j > |a| {
        assert r[i] == s[i] && r[j] == s[j - 1];
      } else if i > |a| {
        assert r[i] == s[i - 1] && r[j] == s[j - 1];
      }
    }
  }

  lemma NotBefore<T(!new)>(x: T, y: T, z: T, le: (T, T) -> bool)
    requires TotalPreorder(le) && !le(y, x) && (y == z || le(y, z))
    ensures le(x, z)
  {
    assert le(x, y);
  }

  /** An element put before the first one that does not precede it. */
  lemma InsertedAt<T(!new)>(s: seq<T>, x: T, k: nat, le: (T, T) -> bool)
    requires TotalPreorder(le) && SortedBy(s, le) && k <= |s|
    requires forall j :: 0 <= j < k ==> le(s[j], x)
    requires k < |s| ==> !le(s[k], x)
    ensures SortedBy(s[..k] + [x] + s[k..], le)
    ensures multiset(s[..k] + [x] + s[k..]) == multiset(s) + multiset{x}
  {
    hide TotalPreorder;
    assert s == s[..k] + s[k..];
    forall j | 0 <= j < |s[k..]| ensures le(x, s[k..][j]) {
      NotBefore(x, s[k], s[k + j], le);
    }
    Between(s[..k], x, s[k..], le);
  }

  /** Some sorted permutation: like `std::sort`, the contract does not say
      in which order equivalent elements end up. */
  method Sort<T(!new)>(s: seq<T>, le: (T, T) -> bool) returns (r: seq<T>)
    requires TotalPreorder(le)
    ensures SortedBy(r, le)
    ensures multiset(r) == multiset(s)
  {
    r := [];
    for i := 0 to |s|
      invariant SortedBy(r, le)
      invariant multiset(r) == multiset(s[..i])
    {
      var k := 0;
      while k < |r| && le(r[k], s[i])
        invariant 0 <= k <= |r|
        invariant forall j :: 0 <= j < k ==> le(r[j], s[i])
      {
        k := k + 1;
      }
      InsertedAt(r, s[i], k, le);
      assert s[..i + 1] == s[..i] + [s[i]];
      r := r[..k] + [s[i]] + r[k..];
    }
    assert s[..|s|] == s;
  }

  /** `std::unique` followed by `erase`: one element of every run of equal elements. */
  function Unique<T(==)>(s: seq<T>): (r: seq<T>)
    ensures |r| <= |s|
    ensures s != [] ==> r != [] && r[0] == s[0]
  {
    if |s| <= 1 then s
    else if s[0] == s[1] then Unique(s[1..])
    else [s[0]] + Unique(s[1..])
  }

  lemma EndsCancel<T>(a: multiset<T>, m: multiset<T>, n: multiset<T>, c: multiset<T>)
    requires a + m + c == a + n + c
    ensures m == n
  {
    forall x ensures m[x] == n[x] {
      assert (a + m + c)[x] == (a + n + c)[x];
    }
  }

  /** Permutations share their elements: the first of one is somewhere in the other, and what
      is left of both are permutations again. */
  lemma SharedElement<T>(a: seq<T>, b: seq<T>) returns (before: seq<T>, after: seq<T>)
    requires a != [] && multiset(a) == multiset(b)
    ensures b == before + [a[0]] + after
    ensures multiset(a[1..]) == multiset(before + after)
  {
    var x, rest := a[0], a[1..];
    assert a == [x] + rest;
    assert x in multiset(b);
    var k :| 0 <= k < |b| && b[k] == x;
    before, after := b[..k], b[k + 1..];
    assert b == before + [x] + after;
    assert multiset(b) == multiset(before) + multiset{x} + multiset(after);
    assert multiset(a) == multiset{x} + multiset(rest);
    assert multiset(before + after) == multiset(before) + multiset(after);
    EndsCancel(multiset{x}, multiset(rest), multiset(before + after), multiset{});
  }

  /** In a sorted sequence only neighbours need comparing: with no two equivalent
      neighbours, the sequence is strictly increasing. */
  lemma {:induction false} NeighboursSuffice<T(!new)>(s: seq<T>, le: (T, T) -> bool, i: nat, j: nat)
    requires TotalPreorder(le) && SortedBy(s, le)
    requires forall k :: 0 <= k < |s| - 1 ==> !le(s[k + 1], s[k])
    requires i < j < |s|
    ensures !le(s[j], s[i])
  {
    assert le(s[i + 1], s[j]) by {
      if i + 1 == j { assert le(s[j], s[j]); }
    }
  }
}
