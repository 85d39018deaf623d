/** List comprehensions with a condition, and Python's stable
    `sorted(..., key=..., reverse=True)`, as functions on sequences. */
module Sequences {

  /** `a` is `b` with some elements left out, the rest in the same order. */
  predicate IsSubsequence<T(==)>(a: seq<T>, b: seq<T>)
    decreases |b|
  {
    a == [] || (b != [] && ((a[0] == b[0] && IsSubsequence(a[1..], b[1..])) || IsSubsequence(a, b[1..])))
  }

  lemma {:induction false} SubsequenceOfSelf<T>(s: seq<T>)
    ensures IsSubsequence(s, s)
  {
    if s != [] { SubsequenceOfSelf(s[1..]); }
  }

  /** Leaving out elements twice is leaving them out once. */
  lemma {:induction false} SubsequenceTransitive<T>(a: seq<T>, b: seq<T>, c: seq<T>)
    requires IsSubsequence(a, b) && IsSubsequence(b, c)
    ensures IsSubsequence(a, c)
    decreases |c|
  {
    if a != [] {
      if IsSubsequence(b, c[1..]) {
        SubsequenceTransitive(a, b, c[1..]);
      } else if a[0] == b[0] && IsSubsequence(a[1..], b[1..]) {
        SubsequenceTransitive(a[1..], b[1..], c[1..]);
      } else {
        SubsequenceTransitive(a, b[1..], c[1..]);
      }
    }
  }

  /** Every element of a subsequence occurs in the sequence. */
  lemma {:induction false} SubsequenceMembers<T>(a: seq<T>, b: seq<T>, x: T)
    requires IsSubsequence(a, b) && x in a
    ensures x in b
    decreases |b|
  {
    if a[0] == b[0] && IsSubsequence(a[1..], b[1..]) {
      if x != a[0] {
        assert x in a[1..];
        SubsequenceMembers(a[1..], b[1..], x);
      }
    } else {
      SubsequenceMembers(a, b[1..], x);
    }
  }

  /** `[x for x in s if keep(x)]`: an order-preserving subsequence holding
      every element that passes, as often as it occurs in `s`, and nothing
      else. */
  function Filter<T(==, !new)>(s: seq<T>, keep: T -> bool): (r: seq<T>)
    ensures IsSubsequence(r, s)
    ensures forall x :: multiset(r)[x] == if keep(x) then multiset(s)[x] else 0
  {
    if s == [] then []
    else
      var rest := Filter(s[1..], keep);
      assert s == [s[0]] + s[1..];
      if keep(s[0]) then [s[0]] + rest else rest
  }

  lemma FilterMembers<T(!new)>(s: seq<T>, keep: T -> bool, x: T)
    ensures x in Filter(s, keep) <==> x in s && keep(x)
  {
    assert x in Filter(s, keep) <==> multiset(Filter(s, keep))[x] > 0;
  }

  /** `le` orders keys totally, with ties allowed. */
  ghost predicate IsTotalPreorder<K(!new)>(le: (K, K) -> bool)
  {
    (forall a, b :: le(a, b) || le(b, a))
    && (forall a, b, c :: le(a, b) && le(b, c) ==> le(a, c))
  }

  /** Keys never increase from left to right. */
  ghost predicate IsDescending<T, K>(s: seq<T>, key: T -> K, le: (K, K) -> bool)
  {
    forall i, j :: 0 <= i < j < |s| ==> le(key(s[j]), key(s[i]))
  }

  /** A subsequence of a sequence whose keys never increase has keys that
      never increase. */
  lemma {:induction false} SubsequenceKeepsDescending<T, K>(a: seq<T>, b: seq<T>, key: T -> K, le: (K, K) -> bool)
    requires IsSubsequence(a, b) && IsDescending(b, key, le)
    ensures IsDescending(a, key, le)
    decreases |b|
  {
    if a != [] {
      assert IsDescending(b[1..], key, le);
      if a[0] == b[0] && IsSubsequence(a[1..], b[1..]) {
        SubsequenceKeepsDescending(a[1..], b[1..], key, le);
        forall j | 0 < j < |a| ensures le(key(a[j]), key(a[0])) {
          assert a[j] == a[1..][j - 1];
          SubsequenceMembers(a[1..], b[1..], a[j]);
          var k :| 0 <= k < |b[1..]| && b[1..][k] == a[j];
          assert b[k + 1] == a[j];
        }
        forall i, j | 0 <= i < j < |a| ensures le(key(a[j]), key(a[i])) {
          if i > 0 {
            assert a[i] == a[1..][i - 1] && a[j] == a[1..][j - 1];
          }
        }
      } else {
        SubsequenceKeepsDescending(a, b[1..], key, le);
      }
    }
  }

  /** Puts `x` in front of the first element whose key is not above its own. */
  function InsertDesc<T, K>(x: T, t: seq<T>, key: T -> K, le: (K, K) -> bool): seq<T>
  {
    if t == [] then [x]
    else if le(key(t[0]), key(x)) then [x] + t
    else [t[0]] + InsertDesc(x, t[1..], key, le)
  }

  lemma {:induction false} InsertDescPermutes<T, K>(x: T, t: seq<T>, key: T -> K, le: (K, K) -> bool)
    ensures multiset(InsertDesc(x, t, key, le)) == multiset(t) + multiset{x}
  {
    if t != [] && !le(key(t[0]), key(x)) {
      InsertDescPermutes(x, t[1..], key, le);
      assert t == [t[0]] + t[1..];
    }
  }

  lemma {:induction false} InsertDescKeepsOrder<T, K(!new)>(x: T, t: seq<T>, key: T -> K, le: (K, K) -> bool)
    requires IsTotalPreorder(le) && IsDescending(t, key, le)
    ensures IsDescending(InsertDesc(x, t, key, le), key, le)
  {
    if t != [] && !le(key(t[0]), key(x)) {
      var rest := InsertDesc(x, t[1..], key, le);
      InsertDescKeepsOrder(x, t[1..], key, le);
      InsertDescPermutes(x, t[1..], key, le);
      var r := [t[0]] + rest;
      forall j | 1 <= j < |r| ensures le(key(r[j]), key(t[0])) {
        assert r[j] == rest[j - 1];
        BelowHead(x, t, key, le, rest[j - 1], rest);
      }
    }
  }

  /** An element of `t` without its head, or `x` itself, is keyed no higher
      than the head of a descending `t` whose head is keyed below `x`'s. */
  lemma BelowHead<T, K(!new)>(x: T, t: seq<T>, key: T -> K, le: (K, K) -> bool, y: T, rest: seq<T>)
    requires IsTotalPreorder(le) && IsDescending(t, key, le)
    requires t != [] && !le(key(t[0]), key(x))
    requires multiset(rest) == multiset(t[1..]) + multiset{x} && y in rest
    ensures le(key(y), key(t[0]))
  {
    assert y in multiset(rest);
    if y != x {
      assert y in multiset(t[1..]);
      var k :| 0 <= k < |t[1..]| && t[1..][k] == y;
      assert t[k + 1] == y;
    }
  }

  /** Python's `sorted(s, key=key, reverse=True)`: a permutation of `s`
      whose keys never increase. */
  function SortDesc<T, K(!new)>(s: seq<T>, key: T -> K, le: (K, K) -> bool): (r: seq<T>)
    requires IsTotalPreorder(le)
    ensures multiset(r) == multiset(s)
    ensures IsDescending(r, key, le)
  {
    if s == [] then []
    else
      var t := SortDesc(s[1..], key, le);
      assert s == [s[0]] + s[1..];
      InsertDescPermutes(s[0], t, key, le);
      InsertDescKeepsOrder(s[0], t, key, le);
      InsertDesc(s[0], t, key, le)
  }

  /** The elements whose key is `k`, in order. */
  function WithKey<T, K(==)>(s: seq<T>, key: T -> K, k: K): seq<T>
  {
    if s == [] then []
    else (if key(s[0]) == k then [s[0]] else []) + WithKey(s[1..], key, k)
  }

  lemma {:induction false} InsertDescWithKey<T, K(!new)>(x: T, t: seq<T>, key: T -> K, le: (K, K) -> bool, k: K)
    requires IsTotalPreorder(le)
    ensures WithKey(InsertDesc(x, t, key, le), key, k) == (if key(x) == k then [x] else []) + WithKey(t, key, k)
  {
    if t != [] && !le(key(t[0]), key(x)) {
      var rest := InsertDesc(x, t[1..], key, le);
      InsertDescWithKey(x, t[1..], key, le, k);
      assert ([t[0]] + rest)[1..] == rest;
      assert t == [t[0]] + t[1..];
      var head := if key(t[0]) == k then [t[0]] else [];
      var mine := if key(x) == k then [x] else [];
      assert WithKey(t, key, k) == head + WithKey(t[1..], key, k);
      assert WithKey([t[0]] + rest, key, k) == head + (mine + WithKey(t[1..], key, k));
      assert head == [] || mine == [] by {
        assert le(key(x), key(x));
      }
      assert head + (mine + WithKey(t[1..], key, k)) == mine + (head + WithKey(t[1..], key, k));
    } else if t != [] {
      assert ([x] + t)[1..] == t;
      assert WithKey([x] + t, key, k) == (if key(x) == k then [x] else []) + WithKey(t, key, k);
    } else {
      assert [x][1..] == [];
      assert WithKey([x], key, k) == (if key(x) == k then [x] else []) + [];
    }
  }

  /** The sort is stable: elements with equal keys keep their input order
      (Python keeps this guarantee under `reverse=True`). */
  lemma {:induction false} SortDescStable<T, K(!new)>(s: seq<T>, key: T -> K, le: (K, K) -> bool, k: K)
    requires IsTotalPreorder(le)
    ensures WithKey(SortDesc(s, key, le), key, k) == WithKey(s, key, k)
  {
    if s != [] {
      SortDescStable(s[1..], key, le, k);
      InsertDescWithKey(s[0], SortDesc(s[1..], key, le), key, le, k);
    }
  }
}
