/** Sequence utilities standing in for the JavaScript array methods the
    analyser uses: `filter`, and the stable `sort` that ECMAScript 2019
    requires of `Array.prototype.sort`. The sort is an insertion sort over an
    arbitrary total preorder `le` ("may come before"); ties keep their input
    order. */
module Sorting {

  /** `le` is total and transitive, the shape a comparator must have for a
      sort to be well defined. */
  ghost predicate TotalPreorder<T(!new)>(le: (T, T) -> bool) {
    && (forall a, b :: le(a, b) || le(b, a))
    && (forall a, b, c :: le(a, b) && le(b, c) ==> le(a, c))
  }

  predicate Sorted<T>(s: seq<T>, le: (T, T) -> bool) {
    forall i, j :: 0 <= i < j < |s| ==> le(s[i], s[j])
  }

  /** Places `x` in front of the first element it may precede; on a tie it
      goes first, which keeps the sort stable because `x` came first in the
      input. */
  function Insert<T(!new)>(x: T, s: seq<T>, le: (T, T) -> bool): (r: seq<T>)
    requires TotalPreorder(le)
    requires Sorted(s, le)
    ensures |r| == |s| + 1
    ensures multiset(r) == multiset(s) + multiset{x}
    ensures forall z :: z in r ==> z == x || z in s
    ensures Sorted(r, le)
  {
    if |s| == 0 then [x]
    else if le(x, s[0]) then
      assert forall k :: 0 <= k < |s| ==> le(x, s[k]) by {
        forall k | 0 <= k < |s| ensures le(x, s[k]) {
          if k > 0 { assert le(s[0], s[k]); }
        }
      }
      PrependSorted(x, s, le);
      [x] + s
    else
      var t := Insert(x, s[1..], le);
      assert le(s[0], x);
      assert forall k :: 0 <= k < |t| ==> le(s[0], t[k]) by {
        forall k | 0 <= k < |t| ensures le(s[0], t[k]) {
          assert t[k] in t;
          if t[k] != x {
            var j :| 0 <= j < |s[1..]| && s[1..][j] == t[k];
            assert s[j + 1] == t[k];
          }
        }
      }
      PrependSorted(s[0], t, le);
      assert s == [s[0]] + s[1..];
      assert multiset(s) == multiset{s[0]} + multiset(s[1..]);
      [s[0]] + t
  }

  lemma PrependSorted<T>(a: T, t: seq<T>, le: (T, T) -> bool)
    requires Sorted(t, le)
    requires forall k :: 0 <= k < |t| ==> le(a, t[k])
    ensures Sorted([a] + t, le)
  {
    forall i, j | 0 <= i < j < |[a] + t| ensures le(([a] + t)[i], ([a] + t)[j]) {
      if i > 0 {
        assert ([a] + t)[i] == t[i - 1];
      }
      assert ([a] + t)[j] == t[j - 1];
    }
  }

  /** Stable insertion sort. */
  function Sort<T(!new)>(s: seq<T>, le: (T, T) -> bool): (r: seq<T>)
    requires TotalPreorder(le)
    ensures |r| == |s|
    ensures multiset(r) == multiset(s)
    ensures Sorted(r, le)
  {
    if |s| == 0 then []
    else
      assert s == [s[0]] + s[1..];
      Insert(s[0], Sort(s[1..], le), le)
  }

  /** The elements of `s` that tie with `y` under `le`, in their order in `s`. */
  function Ties<T>(s: seq<T>, le: (T, T) -> bool, y: T): seq<T> {
    if |s| == 0 then []
    else (if le(s[0], y) && le(y, s[0]) then [s[0]] else []) + Ties(s[1..], le, y)
  }

  lemma {:induction false} InsertTies<T(!new)>(x: T, s: seq<T>, le: (T, T) -> bool, y: T)
    requires TotalPreorder(le)
    requires Sorted(s, le)
    ensures Ties(Insert(x, s, le), le, y) == Ties([x] + s, le, y)
  {
    if |s| > 0 && !le(x, s[0]) {
      var t := Insert(x, s[1..], le);
      assert Insert(x, s, le) == [s[0]] + t;
      InsertTies(x, s[1..], le, y);
      NoTieAcross(x, s[0], le, y);
      assert s == [s[0]] + s[1..];
      TiesSwap(x, s[0], t, s[1..], le, y);
    }
  }

  /** Moving `x` past `z` keeps the ties in order when they cannot both tie
      with `y`. */
  lemma TiesSwap<T>(x: T, z: T, t: seq<T>, rest: seq<T>, le: (T, T) -> bool, y: T)
    requires Ties(t, le, y) == Ties([x] + rest, le, y)
    requires !(le(x, y) && le(y, z))
    ensures Ties([z] + t, le, y) == Ties([x] + ([z] + rest), le, y)
  {
    var tx, tz, tr := TieOf(x, le, y), TieOf(z, le, y), Ties(rest, le, y);
    TiesCons(z, t, le, y);
    TiesCons(x, rest, le, y);
    TiesCons(x, [z] + rest, le, y);
    TiesCons(z, rest, le, y);
    assert tx == [] || tz == [];
  }

  /** Nothing sits between two values in the wrong order. */
  lemma NoTieAcross<T(!new)>(x: T, z: T, le: (T, T) -> bool, y: T)
    requires TotalPreorder(le)
    requires !le(x, z)
    ensures !(le(x, y) && le(y, z))
  {
  }

  /** `[a]` when `a` ties with `y`, nothing otherwise. */
  function TieOf<T>(a: T, le: (T, T) -> bool, y: T): (r: seq<T>)
    ensures r == [] || r == [a]
  {
    if le(a, y) && le(y, a) then [a] else []
  }

  lemma TiesCons<T>(a: T, rest: seq<T>, le: (T, T) -> bool, y: T)
    ensures Ties([a] + rest, le, y) == TieOf(a, le, y) + Ties(rest, le, y)
  {
    assert ([a] + rest)[1..] == rest;
  }

  /** The sort is stable: the elements that tie with any given value come out
      in exactly the order they went in. */
  lemma {:induction false} SortStable<T(!new)>(s: seq<T>, le: (T, T) -> bool, y: T)
    requires TotalPreorder(le)
    ensures Ties(Sort(s, le), le, y) == Ties(s, le, y)
  {
    if |s| > 0 {
      SortStable(s[1..], le, y);
      InsertTies(s[0], Sort(s[1..], le), le, y);
      assert ([s[0]] + Sort(s[1..], le))[1..] == Sort(s[1..], le);
      assert ([s[0]] + s[1..])[1..] == s[1..];
      assert s == [s[0]] + s[1..];
    }
  }

  /** A sequence is what comes before an index, the element there, and what
      comes after. */
  lemma SplitAt<T>(b: seq<T>, k: nat)
    requires k < |b|
    ensures b == b[..k] + [b[k]] + b[k + 1..]
  {
  }

  /** Taking a prefix's elements out of a sequence's multiset leaves the
      rest. */
  lemma DropPrefix<T>(s: seq<T>, k: nat)
    requires k <= |s|
    ensures multiset(s) - multiset(s[..k]) == multiset(s[k..])
  {
    assert s == s[..k] + s[k..];
  }

  /** Taking one element out of a sequence takes it out of its multiset. */
  lemma RemoveAt<T>(s: seq<T>, k: nat)
    requires k < |s|
    ensures multiset(s[..k] + s[k + 1..]) == multiset(s) - multiset{s[k]}
  {
    SplitAt(s, k);
    assert multiset(s) == multiset(s[..k]) + multiset{s[k]} + multiset(s[k + 1..]);
  }

  lemma MultisetCancel<T>(a: multiset<T>, b: multiset<T>, c: multiset<T>)
    requires a + c == b + c
    ensures a == b
  {
    forall x ensures a[x] == b[x] {
      assert (a + c)[x] == (b + c)[x];
    }
  }

  /** Where a permutation of `a` holds the first element of `a`, and what
      remains on both sides once it is taken out. */
  lemma PermutationHead<T>(a: seq<T>, b: seq<T>) returns (k: nat)
    requires |a| > 0 && multiset(a) == multiset(b)
    ensures k < |b| && b[k] == a[0]
    ensures multiset(a[1..]) == multiset(b[..k] + b[k + 1..])
  {
    assert a[0] in b by {
      assert a[0] in multiset(b);
    }
    k :| 0 <= k < |b| && b[k] == a[0];
    assert multiset(a[1..]) == multiset(a) - multiset{a[0]} by {
      RemoveAt(a, 0);
      assert a[..0] + a[1..] == a[1..];
    }
    RemoveAt(b, k);
  }

  lemma SameTails<T>(a: seq<T>, b: seq<T>)
    requires |a| > 0 && |b| > 0 && a[0] == b[0]
    requires multiset(a) == multiset(b)
    ensures multiset(a[1..]) == multiset(b[1..])
  {
    var x := a[0];
    assert a == [x] + a[1..];
    assert b == [x] + b[1..];
    assert multiset(a) == multiset{x} + multiset(a[1..]);
    assert multiset(b) == multiset{x} + multiset(b[1..]);
    assert multiset(a) - multiset{x} == multiset(a[1..]);
    assert multiset(b) - multiset{x} == multiset(b[1..]);
  }

  lemma SameHeads<T>(a: seq<T>, b: seq<T>, le: (T, T) -> bool)
    requires |a| > 0 && Sorted(a, le) && Sorted(b, le)
    requires multiset(a) == multiset(b)
    requires forall x, y :: x in a && y in a && le(x, y) && le(y, x) ==> x == y
    ensures |b| > 0 && a[0] == b[0]
  {
    assert a[0] in multiset(b);
    var k :| 0 <= k < |b| && b[k] == a[0];
    assert b[0] in multiset(a);
    var m :| 0 <= m < |a| && a[m] == b[0];
    if k > 0 { assert le(b[0], b[k]); }
    if m > 0 { assert le(a[0], a[m]); }
  }

  /** Two sorted arrangements of the same elements are equal when no two
      different elements tie. */
  lemma {:induction false} SortedUnique<T>(a: seq<T>, b: seq<T>, le: (T, T) -> bool)
    requires Sorted(a, le) && Sorted(b, le)
    requires multiset(a) == multiset(b)
    requires forall x, y :: x in a && y in a && le(x, y) && le(y, x) ==> x == y
    ensures a == b
  {
    if |a| == 0 {
      assert |multiset(b)| == 0;
    } else {
      SameHeads(a, b, le);
      SameTails(a, b);
      var a', b' := a[1..], b[1..];
      forall x, y | x in a' && y in a' && le(x, y) && le(y, x) ensures x == y {
        assert x in a && y in a;
      }
      SortedUnique(a', b', le);
      assert a == [a[0]] + a' && b == [b[0]] + b';
    }
  }

  // ---------------------------------------------------------------------
  // Sorting by a numeric key, largest first (`(a, b) => key(b) - key(a)`)
  // ---------------------------------------------------------------------

  function Descending<T>(key: T -> int): (T, T) -> bool {
    (a: T, b: T) => key(a) >= key(b)
  }

  lemma DescendingIsPreorder<T(!new)>(key: T -> int)
    ensures TotalPreorder(Descending(key))
  {
  }

  /** A stable sort on `key`, largest first. */
  function SortDesc<T(!new)>(s: seq<T>, key: T -> int): (r: seq<T>)
    ensures |r| == |s|
    ensures multiset(r) == multiset(s)
    ensures forall i, j :: 0 <= i < j < |r| ==> key(r[i]) >= key(r[j])
  {
    DescendingIsPreorder(key);
    var r := Sort(s, Descending(key));
    assert Sorted(r, Descending(key));
    r
  }

  /** The elements of `s` whose key is `k`, in order. */
  function WithKey<T>(s: seq<T>, key: T -> int, k: int): seq<T> {
    if |s| == 0 then [] else (if key(s[0]) == k then [s[0]] else []) + WithKey(s[1..], key, k)
  }

  lemma {:induction false} TiesAreEqualKeys<T>(s: seq<T>, key: T -> int, y: T)
    ensures Ties(s, Descending(key), y) == WithKey(s, key, key(y))
  {
    if |s| > 0 {
      TiesAreEqualKeys(s[1..], key, y);
    }
  }

  /** Sorting by a key keeps the relative order of elements with equal keys. */
  lemma SortDescStable<T(!new)>(s: seq<T>, key: T -> int, y: T)
    ensures WithKey(SortDesc(s, key), key, key(y)) == WithKey(s, key, key(y))
  {
    DescendingIsPreorder(key);
    SortStable(s, Descending(key), y);
    TiesAreEqualKeys(s, key, y);
    TiesAreEqualKeys(SortDesc(s, key), key, y);
  }

  // ---------------------------------------------------------------------
  // Filtering
  // ---------------------------------------------------------------------

  /** `s.filter(p)`. */
  function Filter<T>(s: seq<T>, p: T -> bool): (r: seq<T>)
    ensures |r| <= |s|
  {
    if |s| == 0 then []
    else (if p(s[0]) then [s[0]] else []) + Filter(s[1..], p)
  }

  /** A filter keeps exactly the elements satisfying `p`, each no more often
      than it occurs. */
  lemma {:induction false} FilterSpec<T>(s: seq<T>, p: T -> bool)
    ensures forall x :: x in Filter(s, p) <==> x in s && p(x)
    ensures multiset(Filter(s, p)) <= multiset(s)
  {
    if |s| > 0 {
      FilterSpec(s[1..], p);
      assert s == [s[0]] + s[1..];
    }
  }

  /** Filtering keeps order: it distributes over concatenation. */
  lemma {:induction false} FilterConcat<T>(a: seq<T>, b: seq<T>, p: T -> bool)
    ensures Filter(a + b, p) == Filter(a, p) + Filter(b, p)
  {
    if |a| > 0 {
      FilterConcat(a[1..], b, p);
      assert (a + b)[0] == a[0];
      assert (a + b)[1..] == a[1..] + b;
    } else {
      assert a + b == b;
    }
  }

  lemma FilterMiddle<T>(a: seq<T>, x: seq<T>, c: seq<T>, p: T -> bool)
    ensures multiset(Filter(a + x + c, p)) == multiset(Filter(x, p)) + multiset(Filter(a + c, p))
  {
    FilterConcat(a + x, c, p);
    FilterConcat(a, x, p);
    FilterConcat(a, c, p);
    var fa, fx, fc := Filter(a, p), Filter(x, p), Filter(c, p);
    assert multiset(fa + fx + fc) == multiset(fa) + multiset(fx) + multiset(fc);
    assert multiset(fa + fc) == multiset(fa) + multiset(fc);
  }

  lemma FilterRemove<T>(b: seq<T>, k: nat, p: T -> bool)
    requires k < |b|
    ensures multiset(Filter(b, p))
         == multiset(Filter([b[k]], p)) + multiset(Filter(b[..k] + b[k + 1..], p))
  {
    SplitAt(b, k);
    FilterMiddle(b[..k], [b[k]], b[k + 1..], p);
  }


  /** Filtering does not see the order of its input. */
  lemma {:induction false} FilterPermutation<T>(a: seq<T>, b: seq<T>, p: T -> bool)
    requires multiset(a) == multiset(b)
    ensures multiset(Filter(a, p)) == multiset(Filter(b, p))
    decreases |a|
  {
    if |a| == 0 {
      assert |multiset(b)| == 0;
    } else {
      var k := PermutationHead(a, b);
      FilterPermutation(a[1..], b[..k] + b[k + 1..], p);
      FilterRemove(b, k, p);
      assert Filter([b[k]], p) == if p(a[0]) then [a[0]] else [] by {
        assert [b[k]][1..] == [];
      }
    }
  }

  /** A filter keeps everything it is not asked to drop. */
  lemma {:induction false} FilterAll<T>(s: seq<T>, p: T -> bool)
    requires forall x :: x in s ==> p(x)
    ensures Filter(s, p) == s
  {
    if |s| > 0 {
      FilterAll(s[1..], p);
      assert s == [s[0]] + s[1..];
    }
  }

  /** Filtering by `p` after filtering by a weaker `q` is filtering by `p`. */
  lemma {:induction false} FilterFilter<T>(s: seq<T>, q: T -> bool, p: T -> bool)
    requires forall x :: p(x) ==> q(x)
    ensures Filter(Filter(s, q), p) == Filter(s, p)
  {
    if |s| > 0 {
      FilterFilter(s[1..], q, p);
      if q(s[0]) {
        assert Filter(s, q) == [s[0]] + Filter(s[1..], q);
        assert ([s[0]] + Filter(s[1..], q))[1..] == Filter(s[1..], q);
      } else {
        assert !p(s[0]);
        assert [] + Filter(s[1..], q) == Filter(s[1..], q);
        assert [] + Filter(s[1..], p) == Filter(s[1..], p);
      }
    }
  }

  function HasKey<T>(key: T -> int, k: int): T -> bool {
    x => key(x) == k
  }

  lemma {:induction false} WithKeyIsFilter<T>(s: seq<T>, key: T -> int, k: int)
    ensures WithKey(s, key, k) == Filter(s, HasKey(key, k))
  {
    if |s| > 0 {
      WithKeyIsFilter(s[1..], key, k);
    }
  }

  // ---------------------------------------------------------------------
  // Distinct keys
  // ---------------------------------------------------------------------

  predicate DistinctKeys<T, K(==)>(s: seq<T>, key: T -> K) {
    forall i, j :: 0 <= i < j < |s| ==> key(s[i]) != key(s[j])
  }

  /** The elements satisfying `p` have distinct keys. */
  predicate DistinctKeysAmong<T, K(==)>(s: seq<T>, p: T -> bool, key: T -> K) {
    forall i, j :: 0 <= i < j < |s| && p(s[i]) && p(s[j]) ==> key(s[i]) != key(s[j])
  }

  /** A value at two positions occurs at least twice. */
  lemma TwiceCounted<T>(s: seq<T>, i: nat, j: nat)
    requires i < j < |s| && s[i] == s[j]
    ensures multiset(s)[s[i]] >= 2
  {
    assert s == s[..j] + s[j..];
    assert s[..j][i] == s[i];
    assert s[j..][0] == s[j];
    assert multiset(s) == multiset(s[..j]) + multiset(s[j..]);
  }

  /** With distinct keys, every element occurs once. */
  lemma CountedOnce<T, K>(s: seq<T>, p: T -> bool, key: T -> K, k: nat)
    requires DistinctKeysAmong(s, p, key)
    requires k < |s| && p(s[k])
    ensures multiset(s)[s[k]] == 1
  {
    var x := s[k];
    assert s == s[..k] + [x] + s[k + 1..];
    assert x !in s[..k] by {
      forall m | 0 <= m < k ensures s[..k][m] != x {
        if p(s[m]) { assert key(s[m]) != key(s[k]); }
      }
    }
    var tail := s[k + 1..];
    assert x !in tail by {
      forall m | 0 <= m < |tail| ensures tail[m] != x {
        if p(s[k + 1 + m]) { assert key(s[k]) != key(s[k + 1 + m]); }
      }
    }
    assert multiset(s) == multiset(s[..k]) + multiset{x} + multiset(s[k + 1..]);
  }

  /** Reordering keeps the keys of the elements satisfying `p` distinct. */
  lemma DistinctKeysAmongPermutation<T, K>(a: seq<T>, b: seq<T>, p: T -> bool, key: T -> K)
    requires multiset(a) == multiset(b)
    requires DistinctKeysAmong(a, p, key)
    ensures DistinctKeysAmong(b, p, key)
  {
    forall i, j | 0 <= i < j < |b| && p(b[i]) && p(b[j]) ensures key(b[i]) != key(b[j]) {
      assert b[i] in multiset(a) && b[j] in multiset(a);
      var ia :| 0 <= ia < |a| && a[ia] == b[i];
      var ja :| 0 <= ja < |a| && a[ja] == b[j];
      if ia < ja {
        assert key(a[ia]) != key(a[ja]);
      } else if ja < ia {
        assert key(a[ja]) != key(a[ia]);
      } else {
        // b[i] and b[j] would be one value occurring twice
        TwiceCounted(b, i, j);
        CountedOnce(a, p, key, ia);
        assert false;
      }
    }
  }

  function Everything<T>(x: T): bool {
    true
  }

  /** Reordering keeps keys distinct. */
  lemma DistinctKeysPermutation<T, K>(a: seq<T>, b: seq<T>, key: T -> K)
    requires multiset(a) == multiset(b)
    requires DistinctKeys(a, key)
    ensures DistinctKeys(b, key)
  {
    DistinctKeysAmongPermutation(a, b, Everything, key);
  }
}
