/**
 * Generic sequence helpers: distinctness, filtering (`Array.prototype.filter`),
 * first-appearance de-duplication (the key order of a JavaScript `Map` or `Set`)
 * and a stable insertion sort (the stable `Array.prototype.sort`), with the
 * permutation facts the roster assembly needs.
 */
module Seqs {

  /** No value occurs twice. */
  ghost predicate Distinct<T>(s: seq<T>)
  {
    forall i, j | 0 <= i < j < |s| :: s[i] != s[j]
  }

  /** `f` takes pairwise different values on the elements of `s`. */
  ghost predicate InjectiveOn<T>(s: seq<T>, f: T -> int)
  {
    forall i, j | 0 <= i < j < |s| :: f(s[i]) != f(s[j])
  }

  /** Every pair of elements is ordered by `key` (not only neighbours). */
  ghost predicate SortedBy<T>(s: seq<T>, key: T -> int)
  {
    forall i, j | 0 <= i < j < |s| :: key(s[i]) <= key(s[j])
  }

  /** The set of elements of a sequence (`new Set(s)`). */
  function Elements<T>(s: seq<T>): set<T>
  {
    set x | x in s
  }

  /** `new Set(s).size === s.length` holds exactly when `s` has no repeated value. */
  lemma {:induction false} ElementsCardinality<T>(s: seq<T>)
    ensures |Elements(s)| <= |s|
    ensures |Elements(s)| == |s| <==> Distinct(s)
    decreases |s|
  {
    if |s| == 0 {
      assert Elements(s) == {};
    } else {
      var t := s[1..];
      ElementsCardinality(t);
      if s[0] in t {
        assert Elements(s) == Elements(t);
        var k :| 0 <= k < |t| && t[k] == s[0];
        assert s[0] == s[k + 1];
      } else {
        assert Elements(s) == Elements(t) + {s[0]};
        assert s[0] !in Elements(t);
        if Distinct(s) {
          assert Distinct(t) by {
            forall i, j | 0 <= i < j < |t| ensures t[i] != t[j] {
              assert t[i] == s[i + 1] && t[j] == s[j + 1];
            }
          }
        }
        if Distinct(t) {
          forall i, j | 0 <= i < j < |s| ensures s[i] != s[j] {
            if i == 0 {
              assert s[j] == t[j - 1];
            } else {
              assert s[i] == t[i - 1] && s[j] == t[j - 1];
            }
          }
        }
      }
    }
  }

  /** `Array.prototype.filter`: the elements satisfying `p`, in their original order. */
  function Filter<T(!new)>(s: seq<T>, p: T -> bool): (r: seq<T>)
    ensures |r| <= |s|
    ensures forall x | x in r :: p(x) && x in s
    ensures Distinct(s) ==> Distinct(r)
  {
    if |s| == 0 then []
    else
      var rest := Filter(s[1..], p);
      assert s == [s[0]] + s[1..];
      if p(s[0]) then
        assert Distinct(s) ==> s[0] !in s[1..] by {
          if Distinct(s) {
            forall k | 0 <= k < |s[1..]| ensures s[1..][k] != s[0] {
              assert s[1..][k] == s[k + 1];
            }
          }
        }
        assert Distinct(s) ==> Distinct(s[1..]) by {
          if Distinct(s) {
            forall i, j | 0 <= i < j < |s[1..]| ensures s[1..][i] != s[1..][j] {
              assert s[1..][i] == s[i + 1] && s[1..][j] == s[j + 1];
            }
          }
        }
        DistinctCons(s[0], rest);
        [s[0]] + rest
      else
        assert Distinct(s) ==> Distinct(s[1..]) by {
          if Distinct(s) {
            forall i, j | 0 <= i < j < |s[1..]| ensures s[1..][i] != s[1..][j] {
              assert s[1..][i] == s[i + 1] && s[1..][j] == s[j + 1];
            }
          }
        }
        rest
  }

  /** Filtering keeps a satisfying value exactly as often as it occurs, and drops any other value. */
  lemma {:induction false} FilterCount<T(!new)>(s: seq<T>, p: T -> bool, x: T)
    ensures multiset(Filter(s, p))[x] == if p(x) then multiset(s)[x] else 0
    ensures x in s && p(x) ==> x in Filter(s, p)
    decreases |s|
  {
    if |s| > 0 {
      FilterCount(s[1..], p, x);
      assert s == [s[0]] + s[1..];
      assert multiset(s) == multiset{s[0]} + multiset(s[1..]);
      if x in s && p(x) {
        assert x in multiset(s);
        assert multiset(Filter(s, p))[x] > 0;
      }
    }
  }

  /** Filtering out something that occurs makes the sequence strictly shorter. */
  lemma {:induction false} FilterShortens<T(!new)>(s: seq<T>, p: T -> bool, x: T)
    requires x in s && !p(x)
    ensures |Filter(s, p)| < |s|
    decreases |s|
  {
    if s[0] != x {
      FilterShortens(s[1..], p, x);
    }
  }

  /** Prepending a value that does not occur keeps a sequence distinct. */
  lemma {:induction false} DistinctCons<T>(x: T, s: seq<T>)
    ensures Distinct(s) && x !in s ==> Distinct([x] + s)
  {
    if Distinct(s) && x !in s {
      forall i, j | 0 <= i < j < |[x] + s| ensures ([x] + s)[i] != ([x] + s)[j] {
        if i == 0 {
          assert ([x] + s)[j] == s[j - 1];
        } else {
          assert ([x] + s)[i] == s[i - 1] && ([x] + s)[j] == s[j - 1];
        }
      }
    }
  }

  /** Filtering distributes over concatenation. */
  lemma {:induction false} FilterAppend<T(!new)>(a: seq<T>, b: seq<T>, p: T -> bool)
    ensures Filter(a + b, p) == Filter(a, p) + Filter(b, p)
    decreases |a|
  {
    if |a| == 0 {
      assert a + b == b;
    } else {
      assert (a + b)[1..] == a[1..] + b;
      FilterAppend(a[1..], b, p);
    }
  }

  /** Filtering with a predicate every element satisfies changes nothing. */
  lemma {:induction false} FilterAll<T(!new)>(s: seq<T>, p: T -> bool)
    requires forall x | x in s :: p(x)
    ensures Filter(s, p) == s
    decreases |s|
  {
    if |s| > 0 {
      FilterAll(s[1..], p);
    }
  }

  /** Filtering a distinct sequence by "not this element" removes exactly its one occurrence. */
  lemma {:induction false} FilterRemovesOne<T(!new)>(s: seq<T>, i: nat, p: T -> bool)
    requires i < |s| && Distinct(s)
    requires !p(s[i]) && forall x | x in s && x != s[i] :: p(x)
    ensures Filter(s, p) == s[..i] + s[i + 1..]
  {
    assert s == s[..i] + ([s[i]] + s[i + 1..]);
    FilterAppend(s[..i], [s[i]] + s[i + 1..], p);
    FilterAppend([s[i]], s[i + 1..], p);
    assert forall x | x in s[..i] :: x in s && x != s[i];
    assert forall x | x in s[i + 1..] :: x in s && x != s[i];
    FilterAll(s[..i], p);
    FilterAll(s[i + 1..], p);
  }

  /** Filters by predicates that agree on the sequence give the same result. */
  lemma {:induction false} FilterCongruent<T(!new)>(s: seq<T>, p: T -> bool, q: T -> bool)
    requires forall x | x in s :: p(x) == q(x)
    ensures Filter(s, p) == Filter(s, q)
    decreases |s|
  {
    if |s| > 0 {
      FilterCongruent(s[1..], p, q);
    }
  }

  /** Filtering keeps a sorted sequence sorted (it keeps the relative order of what it keeps). */
  lemma {:induction false} FilterKeepsSorted<T(!new)>(s: seq<T>, p: T -> bool, key: T -> int)
    requires SortedBy(s, key)
    ensures SortedBy(Filter(s, p), key)
    decreases |s|
  {
    if |s| > 0 {
      var t := s[1..];
      assert SortedBy(t, key) by {
        forall i, j | 0 <= i < j < |t| ensures key(t[i]) <= key(t[j]) {
          assert t[i] == s[i + 1] && t[j] == s[j + 1];
        }
      }
      FilterKeepsSorted(t, p, key);
      var rest := Filter(t, p);
      if p(s[0]) {
        forall y | y in rest ensures key(s[0]) <= key(y) {
          var k :| 0 <= k < |t| && t[k] == y;
          assert s[k + 1] == y;
        }
        assert Filter(s, p) == [s[0]] + rest;
      }
    }
  }

  /** Filtering keeps a strictly increasing sequence strictly increasing. */
  lemma {:induction false} FilterKeepsStrictlySorted<T(!new)>(s: seq<T>, p: T -> bool, key: T -> int)
    requires forall i, j | 0 <= i < j < |s| :: key(s[i]) < key(s[j])
    ensures forall i, j | 0 <= i < j < |Filter(s, p)| :: key(Filter(s, p)[i]) < key(Filter(s, p)[j])
    decreases |s|
  {
    if |s| > 0 {
      var t := s[1..];
      assert forall i, j | 0 <= i < j < |t| :: key(t[i]) < key(t[j]) by {
        forall i, j | 0 <= i < j < |t| ensures key(t[i]) < key(t[j]) {
          assert t[i] == s[i + 1] && t[j] == s[j + 1];
        }
      }
      FilterKeepsStrictlySorted(t, p, key);
      var rest := Filter(t, p);
      if p(s[0]) {
        forall y | y in rest ensures key(s[0]) < key(y) {
          var k :| 0 <= k < |t| && t[k] == y;
          assert s[k + 1] == y;
        }
        assert Filter(s, p) == [s[0]] + rest;
      }
    }
  }

  /** First-appearance de-duplication: the order in which keys enter a JavaScript `Map`. */
  function Dedup<T(==,!new)>(s: seq<T>): (r: seq<T>)
    ensures Distinct(r)
    ensures forall x :: x in r <==> x in s
  {
    if |s| == 0 then []
    else
      var front := Dedup(s[..|s| - 1]);
      var last := s[|s| - 1];
      assert s == s[..|s| - 1] + [last];
      if last in front then front else front + [last]
  }

  /** `x` occurs in `s` before any occurrence of `y`. */
  ghost predicate Antes<T>(s: seq<T>, x: T, y: T)
  {
    exists i | 0 <= i < |s| :: s[i] == x && forall j | 0 <= j <= i :: s[j] != y
  }

  /** `Dedup` keeps first-appearance order: an earlier key first occurs before every occurrence of a later one. */
  lemma {:induction false} DedupOrden<T(!new)>(s: seq<T>)
    ensures forall i, j | 0 <= i < j < |Dedup(s)| :: Antes(s, Dedup(s)[i], Dedup(s)[j])
    decreases |s|
  {
    if |s| > 0 {
      var s' := s[..|s| - 1];
      var front := Dedup(s');
      var last := s[|s| - 1];
      DedupOrden(s');
      forall i, j | 0 <= i < j < |Dedup(s)| ensures Antes(s, Dedup(s)[i], Dedup(s)[j]) {
        var x := Dedup(s)[i];
        var y := Dedup(s)[j];
        if j < |front| {
          assert x == front[i] && y == front[j];
          AntesPrefijo(s', s, x, y);
        } else {
          assert last !in front && y == last && x == front[i];
          assert x in s';
          var k :| 0 <= k < |s'| && s'[k] == x;
          assert forall m | 0 <= m <= k :: s[m] == s'[m] && s'[m] in s';
        }
      }
    }
  }

  /** An order seen in a prefix holds in the whole sequence. */
  lemma {:induction false} AntesPrefijo<T>(p: seq<T>, s: seq<T>, x: T, y: T)
    requires p <= s && Antes(p, x, y)
    ensures Antes(s, x, y)
  {
    var i :| 0 <= i < |p| && p[i] == x && forall j | 0 <= j <= i :: p[j] != y;
    assert s[i] == x && forall j | 0 <= j <= i :: s[j] == p[j];
  }

  /** `idx` places the elements of `r` in `s` at strictly increasing positions. */
  ghost predicate Embebe<T>(idx: seq<nat>, r: seq<T>, s: seq<T>)
  {
    && |idx| == |r|
    && (forall k | 0 <= k < |idx| :: idx[k] < |s| && s[idx[k]] == r[k])
    && (forall j, k | 0 <= j < k < |idx| :: idx[j] < idx[k])
  }

  /** `r` is `s` with some elements left out: what remains is in the same order. */
  ghost predicate Subsecuencia<T>(r: seq<T>, s: seq<T>)
  {
    exists idx: seq<nat> :: Embebe(idx, r, s)
  }

  /** Filtering keeps the surviving elements in their order. */
  lemma {:induction false} FilterSubsecuencia<T(!new)>(s: seq<T>, p: T -> bool)
    ensures Subsecuencia(Filter(s, p), s)
  {
    var idx := FilterPosiciones(s, p);
  }

  /** The positions `Filter` keeps. */
  lemma {:induction false} FilterPosiciones<T(!new)>(s: seq<T>, p: T -> bool) returns (idx: seq<nat>)
    ensures Embebe(idx, Filter(s, p), s)
    decreases |s|
  {
    if |s| == 0 {
      idx := [];
    } else {
      var prev := FilterPosiciones(s[1..], p);
      FilterHead(s, p);
      if p(s[0]) {
        idx := [0] + Desplazar(prev);
        EmbebeCabeza(prev, Filter(s[1..], p), s);
      } else {
        idx := Desplazar(prev);
        EmbebeCola(prev, Filter(s[1..], p), s);
      }
    }
  }

  /** Every position moved one place to the right. */
  function Desplazar(idx: seq<nat>): (r: seq<nat>)
    ensures |r| == |idx| && forall k | 0 <= k < |idx| :: r[k] == idx[k] + 1
  {
    seq(|idx|, k requires 0 <= k < |idx| => idx[k] + 1)
  }

  /** A placement in the tail of `s` is a placement in `s`, one place further right. */
  lemma {:induction false} EmbebeCola<T>(idx: seq<nat>, r: seq<T>, s: seq<T>)
    requires |s| > 0 && Embebe(idx, r, s[1..])
    ensures Embebe(Desplazar(idx), r, s)
  {
    var d := Desplazar(idx);
    forall k | 0 <= k < |d| ensures d[k] < |s| && s[d[k]] == r[k] {
      assert s[1..][idx[k]] == r[k];
    }
  }

  /** The same, with the head of `s` kept in front. */
  lemma {:induction false} EmbebeCabeza<T>(idx: seq<nat>, r: seq<T>, s: seq<T>)
    requires |s| > 0 && Embebe(idx, r, s[1..])
    ensures Embebe([0] + Desplazar(idx), [s[0]] + r, s)
  {
    EmbebeCola(idx, r, s);
    var d := Desplazar(idx);
    var e := [0] + d;
    forall k | 0 <= k < |e| ensures e[k] < |s| && s[e[k]] == ([s[0]] + r)[k] {
      if k > 0 { assert e[k] == d[k - 1]; }
    }
  }

  /** Inserts `x` before the first element whose key is not smaller: keeps equal keys in input order. */
  function Insert<T>(x: T, s: seq<T>, key: T -> int): (r: seq<T>)
    requires SortedBy(s, key)
    ensures SortedBy(r, key)
    ensures multiset(r) == multiset(s) + multiset{x}
  {
    if |s| == 0 || key(x) <= key(s[0]) then
      SortedHead(s, key);
      SortedCons(x, s, key);
      [x] + s
    else
      var rest := Insert(x, s[1..], key);
      assert s == [s[0]] + s[1..];
      SortedHead(s, key);
      LowerBoundKept(rest, s[1..], x, key(s[0]), key);
      SortedCons(s[0], rest, key);
      [s[0]] + rest
  }

  /** The first element of a sorted sequence has the least key. */
  lemma {:induction false} SortedHead<T>(s: seq<T>, key: T -> int)
    requires SortedBy(s, key)
    ensures |s| > 0 ==> forall y | y in s :: key(s[0]) <= key(y)
    ensures |s| > 0 ==> SortedBy(s[1..], key)
  {
    if |s| > 0 {
      forall y | y in s ensures key(s[0]) <= key(y) {
        var k :| 0 <= k < |s| && s[k] == y;
      }
      forall i, j | 0 <= i < j < |s[1..]| ensures key(s[1..][i]) <= key(s[1..][j]) {
        assert s[1..][i] == s[i + 1] && s[1..][j] == s[j + 1];
      }
    }
  }

  /** Putting an element whose key bounds the rest from below in front of a sorted sequence keeps it sorted. */
  lemma {:induction false} SortedCons<T>(h: T, t: seq<T>, key: T -> int)
    requires SortedBy(t, key)
    requires forall y | y in t :: key(h) <= key(y)
    ensures SortedBy([h] + t, key)
  {
    var s := [h] + t;
    forall i, j | 0 <= i < j < |s| ensures key(s[i]) <= key(s[j]) {
      assert s[j] == t[j - 1];
      if i > 0 {
        assert s[i] == t[i - 1];
      } else {
        assert t[j - 1] in t;
      }
    }
  }

  /** A lower bound on the keys of `b` and of `x` bounds a sequence holding the elements of `b` plus `x`. */
  lemma {:induction false} LowerBoundKept<T>(a: seq<T>, b: seq<T>, x: T, lo: int, key: T -> int)
    requires multiset(a) == multiset(b) + multiset{x}
    requires lo <= key(x) && forall y | y in b :: lo <= key(y)
    ensures forall y | y in a :: lo <= key(y)
  {
    forall y | y in a ensures lo <= key(y) {
      assert y in multiset(a);
      if y != x {
        assert y in multiset(b);
      }
    }
  }

  /** Stable insertion sort by an integer key. */
  function SortBy<T>(s: seq<T>, key: T -> int): (r: seq<T>)
    ensures SortedBy(r, key)
    ensures multiset(r) == multiset(s)
    ensures |r| == |s|
  {
    if |s| == 0 then []
    else
      assert s == [s[0]] + s[1..];
      Insert(s[0], SortBy(s[1..], key), key)
  }

  /** The elements whose key is `k`. */
  function ConClave<T>(key: T -> int, k: int): T -> bool
  {
    x => key(x) == k
  }

  /** Filtering a sequence with a new head. */
  lemma {:induction false} FilterCons<T(!new)>(x: T, s: seq<T>, p: T -> bool)
    ensures Filter([x] + s, p) == (if p(x) then [x] else []) + Filter(s, p)
  {
    assert ([x] + s)[0] == x && ([x] + s)[1..] == s;
  }

  /** Filtering a non-empty sequence decides its head, then filters the rest. */
  lemma {:induction false} FilterHead<T(!new)>(s: seq<T>, p: T -> bool)
    requires |s| > 0
    ensures Filter(s, p) == (if p(s[0]) then [s[0]] else []) + Filter(s[1..], p)
  {
  }

  /** Inserting puts `x` in front of every element with the same key, and disturbs no other key's elements. */
  lemma {:induction false} InsertStable<T(!new)>(x: T, s: seq<T>, key: T -> int, k: int)
    requires SortedBy(s, key)
    ensures Filter(Insert(x, s, key), ConClave(key, k)) ==
      (if key(x) == k then [x] else []) + Filter(s, ConClave(key, k))
    decreases |s|
  {
    var p := ConClave(key, k);
    if |s| == 0 || key(x) <= key(s[0]) {
      assert Insert(x, s, key) == [x] + s;
      FilterCons(x, s, p);
    } else {
      var t := s[1..];
      assert SortedBy(t, key) by {
        SortedHead(s, key);
      }
      var rest := Insert(x, t, key);
      var cx: seq<T> := if key(x) == k then [x] else [];
      var c0: seq<T> := if key(s[0]) == k then [s[0]] else [];
      assert Filter(Insert(x, s, key), p) == c0 + Filter(rest, p) by {
        assert Insert(x, s, key) == [s[0]] + rest;
        FilterCons(s[0], rest, p);
      }
      assert Filter(rest, p) == cx + Filter(t, p) by {
        InsertStable(x, t, key, k);
      }
      assert Filter(s, p) == c0 + Filter(t, p) by {
        FilterHead(s, p);
      }
      assert c0 == [] || cx == [];
      ConcatConVacio(c0, cx, Filter(t, p));
    }
  }

  /** Two sequences one of which is empty can be prepended in either order. */
  lemma {:induction false} ConcatConVacio<T>(a: seq<T>, b: seq<T>, f: seq<T>)
    requires a == [] || b == []
    ensures a + (b + f) == b + (a + f)
  {
    if a == [] {
      assert a + (b + f) == b + f;
    } else {
      assert b + (a + f) == a + f;
    }
  }

  /** The sort is stable: the elements sharing any one key keep their input order. */
  lemma {:induction false} SortByStable<T(!new)>(s: seq<T>, key: T -> int, k: int)
    ensures Filter(SortBy(s, key), ConClave(key, k)) == Filter(s, ConClave(key, k))
    decreases |s|
  {
    if |s| > 0 {
      var t := s[1..];
      var p := ConClave(key, k);
      assert Filter(SortBy(s, key), p) == (if key(s[0]) == k then [s[0]] else []) + Filter(SortBy(t, key), p) by {
        assert SortBy(s, key) == Insert(s[0], SortBy(t, key), key);
        InsertStable(s[0], SortBy(t, key), key, k);
      }
      assert Filter(SortBy(t, key), p) == Filter(t, p) by {
        SortByStable(t, key, k);
      }
      FilterHead(s, p);
    }
  }

  /** In a sequence on which `f` is injective, every value occurs at most once. */
  lemma {:induction false} InjectiveCountsAtMostOne<T>(s: seq<T>, f: T -> int, x: T)
    requires InjectiveOn(s, f)
    ensures multiset(s)[x] <= 1
    decreases |s|
  {
    if |s| > 0 {
      var t := s[1..];
      assert s == [s[0]] + t;
      assert InjectiveOn(t, f) by {
        forall i, j | 0 <= i < j < |t| ensures f(t[i]) != f(t[j]) {
          assert t[i] == s[i + 1] && t[j] == s[j + 1];
        }
      }
      InjectiveCountsAtMostOne(t, f, x);
      assert s[0] !in t by {
        forall k | 0 <= k < |t| ensures t[k] != s[0] {
          assert f(s[0]) != f(s[k + 1]);
        }
      }
    }
  }

  /** A value that occurs at most once cannot sit at two positions. */
  lemma {:induction false} AtMostOnceAtOnePosition<T>(s: seq<T>, i: nat, j: nat)
    requires i < j < |s| && multiset(s)[s[i]] <= 1
    ensures s[i] != s[j]
  {
    assert s == s[..i] + [s[i]] + s[i + 1..j] + [s[j]] + s[j + 1..];
  }

  /** A permutation of a sequence on which `f` is injective keeps `f` injective. */
  lemma {:induction false} PermutationKeepsInjective<T>(a: seq<T>, b: seq<T>, f: T -> int)
    requires multiset(a) == multiset(b)
    requires InjectiveOn(a, f)
    ensures InjectiveOn(b, f)
  {
    forall i, j | 0 <= i < j < |b| ensures f(b[i]) != f(b[j]) {
      InjectiveCountsAtMostOne(a, f, b[i]);
      AtMostOnceAtOnePosition(b, i, j);
      assert b[i] in multiset(a) && b[j] in multiset(a);
      var k :| 0 <= k < |a| && a[k] == b[i];
      var l :| 0 <= l < |a| && a[l] == b[j];
      if k < l {
        assert f(a[k]) != f(a[l]);
      } else {
        assert f(a[l]) != f(a[k]);
      }
    }
  }
}
