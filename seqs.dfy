/** Generic facts about sequences used by the pipeline: counting, filtering
    (a boolean mask over a table) and a stable insertion sort. */
module Seqs {

  /** Number of elements of s that satisfy p. */
  function CountIf<T>(s: seq<T>, p: T -> bool): (n: nat)
    ensures n <= |s|
  {
    if s == [] then 0 else (if p(s[0]) then 1 else 0) + CountIf(s[1..], p)
  }

  /** The count is zero exactly when no element satisfies p, and |s| exactly when all do. */
  lemma {:induction false} CountIfExtremes<T>(s: seq<T>, p: T -> bool)
    ensures CountIf(s, p) == 0 <==> forall i :: 0 <= i < |s| ==> !p(s[i])
    ensures CountIf(s, p) == |s| <==> forall i :: 0 <= i < |s| ==> p(s[i])
  {
    if s != [] {
      CountIfExtremes(s[1..], p);
      assert forall i :: 1 <= i < |s| ==> s[i] == s[1..][i - 1];
    }
  }

  lemma {:induction false} CountIfAppend<T>(a: seq<T>, b: seq<T>, p: T -> bool)
    ensures CountIf(a + b, p) == CountIf(a, p) + CountIf(b, p)
  {
    if a == [] {
      assert a + b == b;
    } else {
      assert (a + b)[1..] == a[1..] + b;
      CountIfAppend(a[1..], b, p);
    }
  }

  /** Counting does not depend on the order of the elements. */
  lemma {:induction false} CountIfPermutation<T>(a: seq<T>, b: seq<T>, p: T -> bool)
    requires multiset(a) == multiset(b)
    ensures CountIf(a, p) == CountIf(b, p)
  {
    if a == [] {
      assert |b| == |multiset(b)| == 0;
    } else {
      var x := a[0];
      assert x in multiset(b);
      var k :| 0 <= k < |b| && b[k] == x;
      var b' := b[..k] + b[k + 1..];
      RemoveMatching(a, b, k);
      CountIfPermutation(a[1..], b', p);
      assert a == [x] + a[1..];
      assert b == b[..k] + ([x] + b[k + 1..]);
      CountIfAppend(b[..k], [x] + b[k + 1..], p);
      CountIfAppend([x], b[k + 1..], p);
      CountIfAppend(b[..k], b[k + 1..], p);
    }
  }

  /** Exactly one element satisfies p when the one at position i does and no other does. */
  lemma CountIfSingle<T>(s: seq<T>, p: T -> bool, i: nat)
    requires i < |s| && p(s[i])
    requires forall j :: 0 <= j < |s| && j != i ==> !p(s[j])
    ensures CountIf(s, p) == 1
  {
    var before, after := s[..i], s[i + 1..];
    assert s == before + [s[i]] + after;
    CountIfAppend(before + [s[i]], after, p);
    CountIfAppend(before, [s[i]], p);
    CountIfExtremes(before, p);
    CountIfExtremes(after, p);
  }

  /** A property every element has, every kept element has. */
  lemma {:induction false} FilterPreserves<T>(s: seq<T>, p: T -> bool, q: T -> bool)
    requires forall i :: 0 <= i < |s| ==> q(s[i])
    ensures forall i :: 0 <= i < |Filter(s, p)| ==> q(Filter(s, p)[i])
  {
    if s != [] {
      FilterPreserves(s[1..], p, q);
    }
  }

  /** Two sequences of one length whose elements meet p and q at the same positions have equal counts. */
  lemma {:induction false} CountIfPointwise<A, B>(a: seq<A>, b: seq<B>, p: A -> bool, q: B -> bool)
    requires |a| == |b|
    requires forall i :: 0 <= i < |a| ==> p(a[i]) == q(b[i])
    ensures CountIf(a, p) == CountIf(b, q)
  {
    if a != [] {
      CountIfPointwise(a[1..], b[1..], p, q);
    }
  }

  /** Elements meeting p and elements failing it make up the whole sequence. */
  lemma {:induction false} CountIfComplement<T>(s: seq<T>, p: T -> bool, q: T -> bool)
    requires forall x :: q(x) == !p(x)
    ensures CountIf(s, p) + CountIf(s, q) == |s|
  {
    if s != [] {
      CountIfComplement(s[1..], p, q);
    }
  }

  /** A weaker condition is met at least as often. */
  lemma {:induction false} CountIfMonotone<T>(s: seq<T>, p: T -> bool, q: T -> bool)
    requires forall x :: p(x) ==> q(x)
    ensures CountIf(s, p) <= CountIf(s, q)
  {
    if s != [] {
      CountIfMonotone(s[1..], p, q);
    }
  }

  /** Taking the head of a off a and a matching element off b leaves equal multisets. */
  lemma RemoveMatching<T>(a: seq<T>, b: seq<T>, k: nat)
    requires |a| > 0 && k < |b| && b[k] == a[0]
    requires multiset(a) == multiset(b)
    ensures multiset(a[1..]) == multiset(b[..k] + b[k + 1..])
  {
    var x := a[0];
    assert a == [x] + a[1..];
    assert b == b[..k] + [x] + b[k + 1..];
    var rest, others := multiset(a[1..]), multiset(b[..k] + b[k + 1..]);
    calc {
      rest + multiset{x};
      multiset(a);
      multiset(b);
      multiset(b[..k]) + multiset{x} + multiset(b[k + 1..]);
      others + multiset{x};
    }
    assert rest == (rest + multiset{x}) - multiset{x};
    assert others == (others + multiset{x}) - multiset{x};
  }

  /** At least h elements satisfy p when the first h do. */
  lemma CountIfPrefixAll<T>(s: seq<T>, h: nat, p: T -> bool)
    requires h <= |s|
    requires forall i :: 0 <= i < h ==> p(s[i])
    ensures CountIf(s, p) >= h
  {
    assert s == s[..h] + s[h..];
    CountIfAppend(s[..h], s[h..], p);
    CountIfExtremes(s[..h], p);
  }

  /** At least |s| - h elements satisfy p when all from position h on do. */
  lemma CountIfSuffixAll<T>(s: seq<T>, h: nat, p: T -> bool)
    requires h <= |s|
    requires forall i :: h <= i < |s| ==> p(s[i])
    ensures CountIf(s, p) >= |s| - h
  {
    assert s == s[..h] + s[h..];
    CountIfAppend(s[..h], s[h..], p);
    CountIfExtremes(s[h..], p);
  }

  /** Counting over a prefix never exceeds counting over a longer prefix. */
  lemma {:induction false} CountIfPrefixMonotone<T>(s: seq<T>, i: nat, j: nat, p: T -> bool)
    requires i <= j <= |s|
    ensures CountIf(s[..i], p) <= CountIf(s[..j], p)
  {
    assert s[..j] == s[..i] + s[i..j];
    CountIfAppend(s[..i], s[i..j], p);
  }

  /** The sum of f over the elements of s. */
  function SumOf<T>(s: seq<T>, f: T -> nat): nat
  {
    if s == [] then 0 else f(s[0]) + SumOf(s[1..], f)
  }

  lemma {:induction false} SumOfAppend<T>(a: seq<T>, b: seq<T>, f: T -> nat)
    ensures SumOf(a + b, f) == SumOf(a, f) + SumOf(b, f)
  {
    if a == [] {
      assert a + b == b;
    } else {
      assert (a + b)[1..] == a[1..] + b;
      SumOfAppend(a[1..], b, f);
    }
  }

  /** Summing does not depend on the order of the elements. */
  lemma {:induction false} SumOfPermutation<T>(a: seq<T>, b: seq<T>, f: T -> nat)
    requires multiset(a) == multiset(b)
    ensures SumOf(a, f) == SumOf(b, f)
  {
    if a == [] {
      assert |b| == |multiset(b)| == 0;
    } else {
      var x := a[0];
      assert x in multiset(b);
      var k :| 0 <= k < |b| && b[k] == x;
      RemoveMatching(a, b, k);
      SumOfPermutation(a[1..], b[..k] + b[k + 1..], f);
      assert b == b[..k] + ([x] + b[k + 1..]);
      SumOfAppend(b[..k], [x] + b[k + 1..], f);
      SumOfAppend([x], b[k + 1..], f);
      SumOfAppend(b[..k], b[k + 1..], f);
    }
  }

  /** Two sequences of one length whose elements have equal values at the same positions have
      equal sums. */
  lemma {:induction false} SumOfPointwise<A, B>(a: seq<A>, b: seq<B>, f: A -> nat, g: B -> nat)
    requires |a| == |b|
    requires forall i :: 0 <= i < |a| ==> f(a[i]) == g(b[i])
    ensures SumOf(a, f) == SumOf(b, g)
  {
    if a != [] {
      SumOfPointwise(a[1..], b[1..], f, g);
    }
  }

  /** Dropping elements whose value is zero does not change the sum. */
  lemma {:induction false} SumOfFilter<T>(s: seq<T>, p: T -> bool, f: T -> nat)
    requires forall x :: !p(x) ==> f(x) == 0
    ensures SumOf(Filter(s, p), f) == SumOf(s, f)
  {
    if s != [] {
      SumOfFilter(s[1..], p, f);
      SumOfAppend(if p(s[0]) then [s[0]] else [], Filter(s[1..], p), f);
    }
  }

  /** f applied to every element (a column computed row by row). */
  function Map<A, B>(s: seq<A>, f: A -> B): (r: seq<B>)
    ensures |r| == |s|
    ensures forall i :: 0 <= i < |s| ==> r[i] == f(s[i])
  {
    seq(|s|, i requires 0 <= i < |s| => f(s[i]))
  }

  lemma MapAppend<A, B>(a: seq<A>, b: seq<A>, f: A -> B)
    ensures Map(a + b, f) == Map(a, f) + Map(b, f)
  {
  }

  /** Mapping two arrangements of one multiset gives two arrangements of one multiset. */
  lemma {:induction false} MapPermutation<A, B>(a: seq<A>, b: seq<A>, f: A -> B)
    requires multiset(a) == multiset(b)
    ensures multiset(Map(a, f)) == multiset(Map(b, f))
  {
    if a == [] {
      assert |b| == |multiset(b)| == 0;
    } else {
      var x := a[0];
      assert x in multiset(b);
      var k :| 0 <= k < |b| && b[k] == x;
      var before, after := b[..k], b[k + 1..];
      RemoveMatching(a, b, k);
      MapPermutation(a[1..], before + after, f);
      assert multiset(Map(a, f)) == multiset{f(x)} + multiset(Map(a[1..], f)) by {
        assert Map(a, f) == [f(x)] + Map(a[1..], f);
      }
      assert b == before + ([x] + after);
      assert Map(b, f) == Map(before, f) + ([f(x)] + Map(after, f)) by {
        MapAppend(before, [x] + after, f);
        MapAppend([x], after, f);
        assert Map([x], f) == [f(x)];
      }
      assert multiset(Map(before + after, f)) == multiset(Map(before, f)) + multiset(Map(after, f)) by {
        MapAppend(before, after, f);
      }
    }
  }

  /** Counting the mapped elements that satisfy p counts the elements whose image does. */
  lemma {:induction false} CountIfMap<A, B>(s: seq<A>, f: A -> B, p: B -> bool, q: A -> bool)
    requires forall x :: q(x) == p(f(x))
    ensures CountIf(Map(s, f), p) == CountIf(s, q)
  {
    if s != [] {
      CountIfMap(s[1..], f, p, q);
      assert Map(s, f)[1..] == Map(s[1..], f);
    }
  }

  /** The elements of s that satisfy p, in their original order (a boolean mask). */
  function Filter<T>(s: seq<T>, p: T -> bool): (r: seq<T>)
    ensures |r| <= |s|
    ensures forall i :: 0 <= i < |r| ==> p(r[i])
  {
    if s == [] then []
    else
      var rest := Filter(s[1..], p);
      assert s == [s[0]] + s[1..];
      (if p(s[0]) then [s[0]] else []) + rest
  }

  /** Filter keeps as many elements as satisfy p, and they come from s. */
  lemma {:induction false} FilterCount<T>(s: seq<T>, p: T -> bool)
    ensures |Filter(s, p)| == CountIf(s, p)
    ensures multiset(Filter(s, p)) <= multiset(s)
  {
    if s != [] {
      FilterCount(s[1..], p);
      assert s == [s[0]] + s[1..];
    }
  }

  /** Nothing is kept when no element satisfies p. */
  lemma {:induction false} FilterNone<T>(s: seq<T>, p: T -> bool)
    requires forall i :: 0 <= i < |s| ==> !p(s[i])
    ensures Filter(s, p) == []
  {
    if s != [] {
      FilterNone(s[1..], p);
    }
  }

  /** Everything is kept when every element satisfies p. */
  lemma {:induction false} FilterAll<T>(s: seq<T>, p: T -> bool)
    requires forall i :: 0 <= i < |s| ==> p(s[i])
    ensures Filter(s, p) == s
  {
    if s != [] {
      FilterAll(s[1..], p);
      assert s == [s[0]] + s[1..];
    }
  }

  /** Filter keeps exactly the elements that satisfy p. */
  lemma {:induction false} FilterMembers<T>(s: seq<T>, p: T -> bool, x: T)
    ensures x in Filter(s, p) <==> x in s && p(x)
  {
    if s != [] {
      FilterMembers(s[1..], p, x);
      assert s == [s[0]] + s[1..];
    }
  }

  /** Filtering distributes over concatenation: kept elements stay in their relative order. */
  lemma {:induction false} FilterAppend<T>(a: seq<T>, b: seq<T>, p: T -> bool)
    ensures Filter(a + b, p) == Filter(a, p) + Filter(b, p)
  {
    if a == [] {
      assert a + b == b;
    } else {
      assert (a + b)[1..] == a[1..] + b;
      FilterAppend(a[1..], b, p);
    }
  }

  /** Filtering a non-empty sequence: the filtered prefix, then its last element if it passes. */
  lemma FilterLast<T>(s: seq<T>, p: T -> bool)
    requires s != []
    ensures Filter(s, p) == Filter(s[..|s| - 1], p) + (if p(s[|s| - 1]) then [s[|s| - 1]] else [])
    ensures |Filter(s, p)| == CountIf(s, p)
    ensures CountIf(s, p) == CountIf(s[..|s| - 1], p) + (if p(s[|s| - 1]) then 1 else 0)
  {
    assert s == s[..|s| - 1] + [s[|s| - 1]];
    FilterSnoc(s[..|s| - 1], s[|s| - 1], p);
    FilterCount(s, p);
  }

  /** Filtering and counting a sequence with one more element at the end. */
  lemma FilterSnoc<T>(s: seq<T>, x: T, p: T -> bool)
    ensures Filter(s + [x], p) == Filter(s, p) + (if p(x) then [x] else [])
    ensures CountIf(s + [x], p) == CountIf(s, p) + (if p(x) then 1 else 0)
    ensures |Filter(s, p)| == CountIf(s, p)
  {
    FilterAppend(s, [x], p);
    CountIfAppend(s, [x], p);
    FilterCount(s, p);
    assert [x][1..] == [];
  }

  /** Every pair of elements, in order, is related by le. */
  predicate SortedBy<T>(s: seq<T>, le: (T, T) -> bool)
  {
    forall i, j :: 0 <= i < j < |s| ==> le(s[i], s[j])
  }

  ghost predicate Distinct<T>(s: seq<T>)
  {
    forall i, j :: 0 <= i < j < |s| ==> s[i] != s[j]
  }

  /** An element of a sequence without repetitions occurs once. */
  lemma {:induction false} DistinctOccursOnce<T>(s: seq<T>, x: T)
    requires Distinct(s)
    ensures multiset(s)[x] <= 1
  {
    if s != [] {
      assert s == [s[0]] + s[1..];
      assert Distinct(s[1..]) by {
        forall i, j | 0 <= i < j < |s| - 1 ensures s[1..][i] != s[1..][j] {
          assert s[1..][i] == s[i + 1] && s[1..][j] == s[j + 1];
        }
      }
      DistinctOccursOnce(s[1..], x);
    }
  }

  /** Rearranging a sequence without repetitions cannot create one. */
  lemma DistinctPermutation<T>(a: seq<T>, b: seq<T>)
    requires multiset(a) == multiset(b) && Distinct(a)
    ensures Distinct(b)
  {
    forall i, j | 0 <= i < j < |b| ensures b[i] != b[j] {
      if b[i] == b[j] {
        var x := b[i];
        assert multiset(b)[x] >= 2 by {
          assert b == b[..i] + [x] + b[i + 1..j] + [x] + b[j + 1..];
        }
        DistinctOccursOnce(a, x);
      }
    }
  }

  /** Where an element of a sequence sits in a permutation of it. */
  lemma PermutedIndex<T>(a: seq<T>, b: seq<T>, j: nat) returns (i: nat)
    requires multiset(a) == multiset(b) && j < |a|
    ensures i < |b| && b[i] == a[j]
  {
    assert a[j] in multiset(b);
    i :| 0 <= i < |b| && b[i] == a[j];
  }

  /** In a sorted sequence, an element of a prefix comes before every element outside that prefix. */
  lemma SortedPrefixBefore<T>(f: seq<T>, m: nat, x: T, y: T, le: (T, T) -> bool)
    requires SortedBy(f, le) && m <= |f|
    requires x in f[..m] && y in f && y !in f[..m]
    ensures le(x, y)
  {
    var i :| 0 <= i < m && f[i] == x;
    var j :| 0 <= j < |f| && f[j] == y;
    assert forall k :: 0 <= k < m ==> f[..m][k] == f[k];
  }

  /** Filtering a sorted sequence leaves it sorted. */
  lemma {:induction false} FilterSorted<T>(s: seq<T>, p: T -> bool, le: (T, T) -> bool)
    requires SortedBy(s, le)
    ensures SortedBy(Filter(s, p), le)
  {
    if s != [] {
      SortedTail(s, le);
      FilterSorted(s[1..], p, le);
      var rest := Filter(s[1..], p);
      if p(s[0]) {
        forall j | 0 <= j < |rest| ensures le(s[0], rest[j]) {
          assert rest[j] in rest;
          FilterMembers(s[1..], p, rest[j]);
          var m :| 0 <= m < |s[1..]| && s[1..][m] == rest[j];
          assert s[m + 1] == rest[j];
        }
        var r := [s[0]] + rest;
        forall i, j | 0 <= i < j < |r| ensures le(r[i], r[j]) {
          if i > 0 {
            assert r[i] == rest[i - 1] && r[j] == rest[j - 1];
          }
        }
      }
    }
  }

  /** le is total and transitive, so it can order a sequence. */
  ghost predicate TotalPreorder<T(!new)>(le: (T, T) -> bool)
  {
    (forall a, b :: le(a, b) || le(b, a)) &&
    (forall a, b, c :: le(a, b) && le(b, c) ==> le(a, c))
  }

  /** Inserts x before the first element that x may precede; x goes before the elements equal to it. */
  function Insert<T(!new)>(x: T, s: seq<T>, le: (T, T) -> bool): (r: seq<T>)
    requires TotalPreorder(le) && SortedBy(s, le)
    ensures multiset(r) == multiset(s) + multiset{x}
    ensures |r| == |s| + 1
    ensures SortedBy(r, le)
  {
    if s == [] || le(x, s[0]) then
      InsertFrontSorted(x, s, le);
      [x] + s
    else
      var rest := Insert(x, s[1..], le);
      assert s == [s[0]] + s[1..];
      InsertBehindSorted(x, s, rest, le);
      [s[0]] + rest
  }

  lemma InsertFrontSorted<T(!new)>(x: T, s: seq<T>, le: (T, T) -> bool)
    requires TotalPreorder(le) && SortedBy(s, le)
    requires s == [] || le(x, s[0])
    ensures SortedBy([x] + s, le)
  {
    var r := [x] + s;
    forall i, j | 0 <= i < j < |r| ensures le(r[i], r[j]) {
      if i == 0 {
        if j > 1 {
          assert le(s[0], s[j - 1]);
        }
      } else {
        assert r[i] == s[i - 1] && r[j] == s[j - 1];
      }
    }
  }

  lemma InsertBehindSorted<T(!new)>(x: T, s: seq<T>, rest: seq<T>, le: (T, T) -> bool)
    requires TotalPreorder(le) && SortedBy(s, le) && SortedBy(rest, le)
    requires s != [] && !le(x, s[0])
    requires multiset(rest) == multiset(s[1..]) + multiset{x}
    ensures SortedBy([s[0]] + rest, le)
  {
    var r := [s[0]] + rest;
    forall i, j | 0 <= i < j < |r| ensures le(r[i], r[j]) {
      if i == 0 {
        var y := rest[j - 1];
        assert y in multiset(rest);
        if y != x {
          assert y in multiset(s[1..]);
          var m :| 0 <= m < |s[1..]| && s[1..][m] == y;
          assert s[m + 1] == y;
        }
      } else {
        assert r[i] == rest[i - 1] && r[j] == rest[j - 1];
      }
    }
  }

  /** Stable insertion sort by le. */
  function SortBy<T(!new)>(s: seq<T>, le: (T, T) -> bool): (r: seq<T>)
    requires TotalPreorder(le)
    ensures multiset(r) == multiset(s)
    ensures |r| == |s|
    ensures SortedBy(r, le)
  {
    if s == [] then []
    else
      assert s == [s[0]] + s[1..];
      Insert(s[0], SortBy(s[1..], le), le)
  }

  lemma SortedTail<T>(s: seq<T>, le: (T, T) -> bool)
    requires SortedBy(s, le) && s != []
    ensures SortedBy(s[1..], le)
  {
    forall i, j | 0 <= i < j < |s| - 1 ensures le(s[1..][i], s[1..][j]) {
      assert s[1..][i] == s[i + 1] && s[1..][j] == s[j + 1];
    }
  }

  /** Two sorted arrangements of one multiset start with the same element. */
  lemma SortedHeadsEqual<T>(a: seq<T>, b: seq<T>, le: (T, T) -> bool)
    requires forall x, y :: le(x, y) && le(y, x) ==> x == y
    requires SortedBy(a, le) && SortedBy(b, le)
    requires multiset(a) == multiset(b) && a != []
    ensures b != [] && a[0] == b[0]
  {
    assert |b| == |multiset(b)| > 0;
    assert a[0] in multiset(b);
    assert b[0] in multiset(a);
    var k :| 0 <= k < |b| && b[k] == a[0];
    var m :| 0 <= m < |a| && a[m] == b[0];
    if m != 0 && k != 0 {
      assert le(a[0], a[m]) && le(b[0], b[k]);
    }
  }

  /** Under an antisymmetric order, a multiset has exactly one sorted arrangement. */
  lemma {:induction false} SortedUnique<T>(a: seq<T>, b: seq<T>, le: (T, T) -> bool)
    requires forall x, y :: le(x, y) && le(y, x) ==> x == y
    requires SortedBy(a, le) && SortedBy(b, le)
    requires multiset(a) == multiset(b)
    ensures a == b
  {
    if a == [] {
      assert |b| == |multiset(b)| == 0;
    } else {
      SortedHeadsEqual(a, b, le);
      assert multiset(a[1..]) == multiset(b[1..]) by {
        assert a == [a[0]] + a[1..] && b == [b[0]] + b[1..];
        assert multiset(a) == multiset{a[0]} + multiset(a[1..]);
        assert multiset(b) == multiset{b[0]} + multiset(b[1..]);
        assert multiset(a[1..]) == multiset(a) - multiset{a[0]};
        assert multiset(b[1..]) == multiset(b) - multiset{b[0]};
      }
      SortedTail(a, le);
      SortedTail(b, le);
      SortedUnique(a[1..], b[1..], le);
      assert a == [a[0]] + a[1..] && b == [b[0]] + b[1..];
    }
  }

  /** Regrouping a concatenation, kept apart from the functions that build its parts. */
  lemma Regroup<T>(w: seq<T>, y: seq<T>, x: seq<T>, u: seq<T>, v: seq<T>)
    requires w == x + (u + v) && y == x + u
    ensures w == y + v
  {
  }

  /** Dropping a prefix of a from a + b. */
  lemma DropOfAppend<T>(a: seq<T>, b: seq<T>, n: nat)
    requires n <= |a|
    ensures (a + b)[n..] == a[n..] + b
  {
  }

  /** Dropping a proper prefix keeps the last element. */
  lemma LastOfDrop<T>(a: seq<T>, n: nat)
    requires n < |a|
    ensures a[n..][|a| - n - 1] == a[|a| - 1]
  {
  }
}
