/** The array built-ins the pages use on lists: `filter`, a stable comparator
    `sort`, and `Array.from(new Set(xs)).sort()` for option lists. */
module Lists {
  import opened Strings

  /** `xs.filter(p)`. */
  function Filter<T(!new)>(xs: seq<T>, p: T -> bool): (r: seq<T>)
    ensures |r| <= |xs|
    ensures forall x :: x in r <==> x in xs && p(x)
    ensures multiset(r) <= multiset(xs)
  {
    if xs == [] then []
    else
      assert xs == [xs[0]] + xs[1..];
      if p(xs[0]) then [xs[0]] + Filter(xs[1..], p)
      else Filter(xs[1..], p)
  }

  /** `sub` is `xs` with some elements dropped and the rest in their original order. */
  predicate IsSubseq<T(==)>(sub: seq<T>, xs: seq<T>)
    decreases |xs|
  {
    if sub == [] then true
    else if xs == [] then false
    else if sub[0] == xs[0] then IsSubseq(sub[1..], xs[1..])
    else IsSubseq(sub, xs[1..])
  }

  /** Filtering keeps order: the result is a subsequence of the input. */
  lemma {:induction false} FilterSubseq<T(!new)>(xs: seq<T>, p: T -> bool)
    ensures IsSubseq(Filter(xs, p), xs)
    decreases |xs|
  {
    if xs != [] {
      FilterSubseq(xs[1..], p);
      var r := Filter(xs, p);
      if p(xs[0]) {
        assert r[1..] == Filter(xs[1..], p);
      }
    }
  }

  /** A filter every element passes changes nothing. */
  lemma {:induction false} FilterAll<T(!new)>(xs: seq<T>, p: T -> bool)
    requires forall i :: 0 <= i < |xs| ==> p(xs[i])
    ensures Filter(xs, p) == xs
    decreases |xs|
  {
    if xs != [] {
      FilterAll(xs[1..], p);
    }
  }

  /** Filtering with two predicates that agree on the list gives the same result. */
  lemma {:induction false} FilterSame<T(!new)>(xs: seq<T>, p: T -> bool, q: T -> bool)
    requires forall i :: 0 <= i < |xs| ==> p(xs[i]) == q(xs[i])
    ensures Filter(xs, p) == Filter(xs, q)
    decreases |xs|
  {
    if xs != [] {
      FilterSame(xs[1..], p, q);
    }
  }

  /** A last element the filter rejects leaves the result unchanged. */
  lemma {:induction false} FilterDropLast<T(!new)>(xs: seq<T>, y: T, p: T -> bool)
    requires !p(y)
    ensures Filter(xs + [y], p) == Filter(xs, p)
    decreases |xs|
  {
    if xs == [] {
      assert xs + [y] == [y];
    } else {
      FilterDropLast(xs[1..], y, p);
      assert (xs + [y])[1..] == xs[1..] + [y];
    }
  }

  // ---------------------------------------------------------------------------
  // Stable sort with a comparator returning negative, zero or positive.

  function Sign(x: int): int {
    if x < 0 then -1 else if x == 0 then 0 else 1
  }

  /** What `Array.prototype.sort` asks of a comparator: a consistent total preorder. */
  ghost predicate Consistent<T(!new)>(cmp: (T, T) -> int) {
    (forall a, b :: Sign(cmp(a, b)) == -Sign(cmp(b, a)))
    && (forall a, b, c :: cmp(a, b) <= 0 && cmp(b, c) <= 0 ==> cmp(a, c) <= 0)
  }

  /** Every earlier element compares at most equal to every later one. */
  predicate SortedBy<T>(xs: seq<T>, cmp: (T, T) -> int) {
    forall i, j :: 0 <= i < j < |xs| ==> cmp(xs[i], xs[j]) <= 0
  }

  /** Puts `x` in front of the first element it does not exceed. */
  function Insert<T>(x: T, ys: seq<T>, cmp: (T, T) -> int): seq<T>
    decreases |ys|
  {
    if ys == [] then [x]
    else if cmp(x, ys[0]) <= 0 then [x] + ys
    else [ys[0]] + Insert(x, ys[1..], cmp)
  }

  /** A stable sort: each element goes in front of the equal ones that followed it. */
  function Sort<T>(xs: seq<T>, cmp: (T, T) -> int): seq<T>
    decreases |xs|
  {
    if xs == [] then [] else Insert(xs[0], Sort(xs[1..], cmp), cmp)
  }

  lemma {:induction false} InsertPerm<T>(x: T, ys: seq<T>, cmp: (T, T) -> int)
    ensures multiset(Insert(x, ys, cmp)) == multiset{x} + multiset(ys)
    decreases |ys|
  {
    if ys != [] && cmp(x, ys[0]) > 0 {
      InsertPerm(x, ys[1..], cmp);
      assert ys == [ys[0]] + ys[1..];
    }
  }

  /** A lower bound of `x` and of every element of `ys` bounds the insertion too. */
  lemma {:induction false} InsertLower<T>(b: T, x: T, ys: seq<T>, cmp: (T, T) -> int)
    requires cmp(b, x) <= 0
    requires forall k :: 0 <= k < |ys| ==> cmp(b, ys[k]) <= 0
    ensures forall k :: 0 <= k < |Insert(x, ys, cmp)| ==> cmp(b, Insert(x, ys, cmp)[k]) <= 0
    decreases |ys|
  {
    if ys != [] && cmp(x, ys[0]) > 0 {
      InsertLower(b, x, ys[1..], cmp);
      var t := Insert(x, ys[1..], cmp);
      assert Insert(x, ys, cmp) == [ys[0]] + t;
    }
  }

  lemma SortedTail<T>(ys: seq<T>, cmp: (T, T) -> int)
    requires SortedBy(ys, cmp) && ys != []
    ensures SortedBy(ys[1..], cmp)
    ensures forall k :: 0 <= k < |ys[1..]| ==> cmp(ys[0], ys[1..][k]) <= 0
  {
    forall i, j | 0 <= i < j < |ys[1..]| ensures cmp(ys[1..][i], ys[1..][j]) <= 0 {
      assert ys[1..][i] == ys[i + 1] && ys[1..][j] == ys[j + 1];
    }
    forall k | 0 <= k < |ys[1..]| ensures cmp(ys[0], ys[1..][k]) <= 0 {
      assert ys[1..][k] == ys[k + 1];
    }
  }

  lemma SortedCons<T>(h: T, t: seq<T>, cmp: (T, T) -> int)
    requires SortedBy(t, cmp)
    requires forall k :: 0 <= k < |t| ==> cmp(h, t[k]) <= 0
    ensures SortedBy([h] + t, cmp)
  {
    var r := [h] + t;
    forall i, j | 0 <= i < j < |r| ensures cmp(r[i], r[j]) <= 0 {
      if i == 0 {
        assert r[j] == t[j - 1];
      } else {
        assert r[i] == t[i - 1] && r[j] == t[j - 1];
      }
    }
  }

  lemma {:induction false} InsertSorted<T(!new)>(x: T, ys: seq<T>, cmp: (T, T) -> int)
    requires Consistent(cmp) && SortedBy(ys, cmp)
    ensures SortedBy(Insert(x, ys, cmp), cmp)
    decreases |ys|
  {
    if ys == [] {
    } else if cmp(x, ys[0]) <= 0 {
      forall k | 0 <= k < |ys| ensures cmp(x, ys[k]) <= 0 {
        if k > 0 { assert cmp(ys[0], ys[k]) <= 0; }
      }
      SortedCons(x, ys, cmp);
    } else {
      SortedTail(ys, cmp);
      InsertSorted(x, ys[1..], cmp);
      assert Sign(cmp(x, ys[0])) == -Sign(cmp(ys[0], x));
      InsertLower(ys[0], x, ys[1..], cmp);
      SortedCons(ys[0], Insert(x, ys[1..], cmp), cmp);
    }
  }

  /** The sort returns a permutation of its input. */
  lemma {:induction false} SortPerm<T>(xs: seq<T>, cmp: (T, T) -> int)
    ensures multiset(Sort(xs, cmp)) == multiset(xs)
    decreases |xs|
  {
    if xs != [] {
      SortPerm(xs[1..], cmp);
      InsertPerm(xs[0], Sort(xs[1..], cmp), cmp);
      assert xs == [xs[0]] + xs[1..];
    }
  }

  /** With a consistent comparator, the sort returns its input in order. */
  lemma {:induction false} SortSorted<T(!new)>(xs: seq<T>, cmp: (T, T) -> int)
    requires Consistent(cmp)
    ensures SortedBy(Sort(xs, cmp), cmp)
    decreases |xs|
  {
    if xs != [] {
      SortSorted(xs[1..], cmp);
      InsertSorted(xs[0], Sort(xs[1..], cmp), cmp);
    }
  }

  /** Stability on already ordered input: a list that is in order comes back unchanged,
      equal elements included. */
  lemma {:induction false} SortKeepsSorted<T>(xs: seq<T>, cmp: (T, T) -> int)
    requires SortedBy(xs, cmp)
    ensures Sort(xs, cmp) == xs
    decreases |xs|
  {
    if xs != [] {
      SortedTail(xs, cmp);
      SortKeepsSorted(xs[1..], cmp);
      if |xs| > 1 {
        assert cmp(xs[0], xs[1]) <= 0;
      }
      assert [xs[0]] + xs[1..] == xs;
    }
  }

  // ---------------------------------------------------------------------------
  // `Array.from(new Set(xs)).sort()`: the distinct values in code-point order.

  predicate StrictlySorted(xs: seq<string>) {
    forall i, j :: 0 <= i < j < |xs| ==> LexLess(xs[i], xs[j])
  }

  /** Adds `x` to an ordered, duplicate-free list unless it is already there. */
  function AddOption(x: string, ys: seq<string>): (r: seq<string>)
    requires StrictlySorted(ys)
    ensures StrictlySorted(r)
    ensures forall z :: z in r <==> z == x || z in ys
    decreases |ys|
  {
    if ys == [] then [x]
    else if x == ys[0] then ys
    else if LexLess(x, ys[0]) then
      assert forall j :: 0 < j < |ys| ==> LexLess(x, ys[j]) by {
        forall j | 0 < j < |ys| ensures LexLess(x, ys[j]) {
          LexTransitive(x, ys[0], ys[j]);
        }
      }
      [x] + ys
    else
      LexTotal(x, ys[0]);
      var t := AddOption(x, ys[1..]);
      assert forall k :: 0 <= k < |t| ==> LexLess(ys[0], t[k]) by {
        forall k | 0 <= k < |t| ensures LexLess(ys[0], t[k]) {
          assert t[k] == x || t[k] in ys[1..];
          if t[k] != x {
            var m :| 0 <= m < |ys[1..]| && ys[1..][m] == t[k];
            assert ys[m + 1] == t[k];
          }
        }
      }
      [ys[0]] + t
  }

  /** The sorted list of the distinct values of `xs`. */
  function Options(xs: seq<string>): (r: seq<string>)
    ensures StrictlySorted(r)
    ensures forall z :: z in r <==> z in xs
    decreases |xs|
  {
    if xs == [] then [] else AddOption(xs[0], Options(xs[1..]))
  }

  /** Any ordered, duplicate-free list is determined by its elements, so `Options`
      is the one answer a set-then-sort can give, whatever the set's order. */
  lemma {:induction false} StrictlySortedUnique(a: seq<string>, b: seq<string>)
    requires StrictlySorted(a) && StrictlySorted(b)
    requires forall z :: z in a <==> z in b
    ensures a == b
    decreases |a|
  {
    if a != [] { assert a[0] in b; }
    if b != [] { assert b[0] in a; }
    if a != [] && b != [] {
      var i :| 0 <= i < |b| && b[i] == a[0];
      var j :| 0 <= j < |a| && a[j] == b[0];
      if i > 0 {
        assert LexLess(b[0], b[i]);
        if j == 0 { LexIrreflexive(a[0]); }
        else { assert LexLess(a[0], a[j]); LexAsymmetric(a[0], b[0]); }
      }
      assert a[0] == b[0];
      forall z ensures z in a[1..] <==> z in b[1..] {
        if z in a[1..] {
          var k :| 0 <= k < |a[1..]| && a[1..][k] == z;
          assert LexLess(a[0], a[k + 1]);
          if z == b[0] { LexIrreflexive(z); }
          assert z in b;
        }
        if z in b[1..] {
          var k :| 0 <= k < |b[1..]| && b[1..][k] == z;
          assert LexLess(b[0], b[k + 1]);
          if z == a[0] { LexIrreflexive(z); }
          assert z in a;
        }
      }
      StrictlySortedUnique(a[1..], b[1..]);
      assert a == [a[0]] + a[1..] && b == [b[0]] + b[1..];
    }
  }
}
