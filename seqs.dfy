/** Sequence operations the store and the routes are built from: filtering (JavaScript's
    `filter`, a Python comprehension with a condition), mapping the matching elements
    (`map` with a conditional), and finding the first match (`find`, an early-return loop). */
module Seqs {
  import opened LibraryTypes

  /** Element predicates built from a key function. They are named functions (not inline
      lambdas) so that a definition and a lemma about it mention the same predicate. */
  function KeyIs<T, K(==)>(key: T -> K, k: K): T -> bool { x => key(x) == k }
  function KeyIsNot<T, K(==)>(key: T -> K, k: K): T -> bool { x => key(x) != k }
  function Always<T>(v: T): T -> T { _ => v }

  /** What applying a key predicate to one element means. */
  lemma KeyIsAt<T, K>(key: T -> K, k: K, x: T)
    ensures KeyIs(key, k)(x) == (key(x) == k)
    ensures KeyIsNot(key, k)(x) == (key(x) != k)
  {
  }

  /** `KeyIsAt` for every element at once. */
  lemma KeyIsMeaning<T, K>(key: T -> K, k: K)
    ensures forall x :: KeyIs(key, k)(x) == (key(x) == k)
    ensures forall x :: KeyIsNot(key, k)(x) == (key(x) != k)
  {
    forall x ensures KeyIs(key, k)(x) == (key(x) == k) && KeyIsNot(key, k)(x) == (key(x) != k) {
      KeyIsAt(key, k, x);
    }
  }

  /** The elements of `s` that satisfy `keep`, in their original order. */
  function Filter<T(!new)>(s: seq<T>, keep: T -> bool): (r: seq<T>)
    ensures |r| <= |s|
    ensures forall x :: x in r <==> x in s && keep(x)
    ensures (forall i :: 0 <= i < |s| ==> keep(s[i])) ==> r == s
  {
    if s == [] then []
    else (if keep(s[0]) then [s[0]] else []) + Filter(s[1..], keep)
  }

  /** Filtering distributes over concatenation, so it keeps the relative order of the kept
      elements. */
  lemma {:induction false} FilterConcat<T(!new)>(a: seq<T>, b: seq<T>, keep: T -> bool)
    ensures Filter(a + b, keep) == Filter(a, keep) + Filter(b, keep)
  {
    if a == [] {
      assert a + b == b;
    } else {
      assert (a + b)[0] == a[0];
      assert (a + b)[1..] == a[1..] + b;
      FilterConcat(a[1..], b, keep);
    }
  }

  /** Filtering twice with the same predicate changes nothing the second time. */
  lemma FilterIdempotent<T(!new)>(s: seq<T>, keep: T -> bool)
    ensures Filter(Filter(s, keep), keep) == Filter(s, keep)
  {
    var r := Filter(s, keep);
    forall i | 0 <= i < |r| ensures keep(r[i]) {
      assert r[i] in r;
    }
  }

  /** No two elements share a key. */
  predicate DistinctBy<T, K(==)>(s: seq<T>, key: T -> K) {
    forall i, j :: 0 <= i < j < |s| ==> key(s[i]) != key(s[j])
  }

  /** Some element has the key. */
  predicate HasKey<T, K(==)>(s: seq<T>, key: T -> K, k: K) {
    exists i :: 0 <= i < |s| && key(s[i]) == k
  }

  /** Removing by a key that exactly one element carries removes exactly one element. */
  lemma {:induction false} RemoveUniqueKey<T(!new), K>(s: seq<T>, key: T -> K, k: K)
    requires DistinctBy(s, key)
    requires HasKey(s, key, k)
    ensures |Filter(s, KeyIsNot(key, k))| == |s| - 1
  {
    if key(s[0]) == k {
      forall i | 0 <= i < |s[1..]| ensures KeyIsNot(key, k)(s[1..][i]) {
        assert s[1..][i] == s[i + 1];
      }
    } else {
      var i :| 0 <= i < |s| && key(s[i]) == k;
      assert s[1..][i - 1] == s[i];
      RemoveUniqueKey(s[1..], key, k);
    }
  }

  /** Removing by a key nobody carries is a no-op. */
  lemma RemoveAbsentKey<T(!new), K>(s: seq<T>, key: T -> K, k: K)
    requires !HasKey(s, key, k)
    ensures Filter(s, KeyIsNot(key, k)) == s
  {
    forall i | 0 <= i < |s| ensures KeyIsNot(key, k)(s[i]) {
      assert !(0 <= i < |s| && key(s[i]) == k);
    }
  }

  /** `s` with every element that satisfies `hit` replaced by `f` of it. */
  function MapWhere<T>(s: seq<T>, hit: T -> bool, f: T -> T): (r: seq<T>)
    ensures |r| == |s|
    ensures forall i :: 0 <= i < |s| ==> r[i] == (if hit(s[i]) then f(s[i]) else s[i])
  {
    if s == [] then []
    else [if hit(s[0]) then f(s[0]) else s[0]] + MapWhere(s[1..], hit, f)
  }

  /** Mapping where nothing matches is a no-op. */
  lemma MapWhereNoHit<T>(s: seq<T>, hit: T -> bool, f: T -> T)
    requires forall i :: 0 <= i < |s| ==> !hit(s[i])
    ensures MapWhere(s, hit, f) == s
  {
  }

  /** The position of the first element satisfying `hit`, if there is one. */
  function FirstIndex<T>(s: seq<T>, hit: T -> bool): (r: Option<nat>)
    ensures r.Some? ==> r.value < |s| && hit(s[r.value]) && forall j :: 0 <= j < r.value ==> !hit(s[j])
    ensures r.None? ==> forall j :: 0 <= j < |s| ==> !hit(s[j])
  {
    if s == [] then None
    else if hit(s[0]) then Some(0)
    else match FirstIndex(s[1..], hit)
      case Some(k) => Some(k + 1)
      case None => None
  }

  /** The first element satisfying `hit`, if there is one. */
  function FindFirst<T>(s: seq<T>, hit: T -> bool): (r: Option<T>)
    ensures r.Some? <==> exists i :: 0 <= i < |s| && hit(s[i])
    ensures r.Some? ==> r.value in s && hit(r.value)
    ensures r.Some? ==> exists k :: 0 <= k < |s| && s[k] == r.value && forall j :: 0 <= j < k ==> !hit(s[j])
  {
    match FirstIndex(s, hit)
    case Some(k) => Some(s[k])
    case None => None
  }

  /** `s` with only its first element satisfying `hit` replaced by `f` of it. */
  function MapFirst<T>(s: seq<T>, hit: T -> bool, f: T -> T): (r: seq<T>)
    ensures |r| == |s|
    ensures forall i :: 0 <= i < |s| ==> r[i] == (if FirstIndex(s, hit) == Some(i) then f(s[i]) else s[i])
    ensures FirstIndex(s, hit).None? ==> r == s
  {
    match FirstIndex(s, hit)
    case Some(k) => s[k := f(s[k])]
    case None => s
  }

  /** When keys are distinct, changing the first element with a key is the same as changing
      every element with that key. */
  lemma MapFirstIsMapWhere<T, K>(s: seq<T>, key: T -> K, k: K, f: T -> T)
    requires DistinctBy(s, key)
    ensures MapFirst(s, KeyIs(key, k), f) == MapWhere(s, KeyIs(key, k), f)
  {
    var a, b := MapFirst(s, KeyIs(key, k), f), MapWhere(s, KeyIs(key, k), f);
    match FirstIndex(s, KeyIs(key, k))
    case None =>
    case Some(m) =>
      forall i | 0 <= i < |s| ensures a[i] == b[i] {
        if i != m {
          assert key(s[i]) != key(s[m]);
        }
      }
  }

  /** Replacing elements by a value with the same key keeps the keys distinct. */
  lemma MapWhereKeepsKeys<T, K>(s: seq<T>, key: T -> K, k: K, v: T)
    requires DistinctBy(s, key) && key(v) == k
    ensures DistinctBy(MapWhere(s, KeyIs(key, k), Always(v)), key)
  {
    var r := MapWhere(s, KeyIs(key, k), Always(v));
    forall i, j | 0 <= i < j < |r| ensures key(r[i]) != key(r[j]) {
      assert key(r[i]) == key(s[i]);
      assert key(r[j]) == key(s[j]);
    }
  }

  /** Filtering keeps keys distinct. */
  lemma {:induction false} FilterKeepsDistinct<T(!new), K>(s: seq<T>, key: T -> K, keep: T -> bool)
    requires DistinctBy(s, key)
    ensures DistinctBy(Filter(s, keep), key)
  {
    if s != [] {
      FilterKeepsDistinct(s[1..], key, keep);
      var rest := Filter(s[1..], keep);
      forall x | x in rest ensures key(x) != key(s[0]) {
        var j :| 0 <= j < |s[1..]| && s[1..][j] == x;
        assert s[j + 1] == x;
      }
      var r := Filter(s, keep);
      if keep(s[0]) {
        forall i, j | 0 <= i < j < |r| ensures key(r[i]) != key(r[j]) {
          assert r[j] == rest[j - 1];
          assert rest[j - 1] in rest;
          if i > 0 {
            assert r[i] == rest[i - 1];
          }
        }
      }
    }
  }

  /** The number of elements satisfying `p`. */
  function Count<T>(s: seq<T>, p: T -> bool): (n: nat)
    ensures n <= |s|
    ensures n == 0 <==> forall i :: 0 <= i < |s| ==> !p(s[i])
  {
    if s == [] then 0
    else (if p(s[0]) then 1 else 0) + Count(s[1..], p)
  }

  /** The length of a filtered sequence is the number of elements it keeps. */
  lemma {:induction false} FilterLength<T(!new)>(s: seq<T>, keep: T -> bool)
    ensures |Filter(s, keep)| == Count(s, keep)
  {
    if s != [] {
      FilterLength(s[1..], keep);
    }
  }

  /** Appending an element whose key is new keeps the keys distinct. */
  lemma AppendKeepsDistinct<T, K>(s: seq<T>, key: T -> K, x: T)
    requires DistinctBy(s, key)
    requires !HasKey(s, key, key(x))
    ensures DistinctBy(s + [x], key)
  {
    var r := s + [x];
    forall i, j | 0 <= i < j < |r| ensures key(r[i]) != key(r[j]) {
      if j == |s| {
        assert r[i] == s[i];
      } else {
        assert r[i] == s[i] && r[j] == s[j];
      }
    }
  }

  /** Filtering by a conjunction is filtering by each conjunct in turn. */
  lemma {:induction false} FilterFilter<T(!new)>(s: seq<T>, both: T -> bool, first: T -> bool, second: T -> bool)
    requires forall x :: both(x) <==> first(x) && second(x)
    ensures Filter(s, both) == Filter(Filter(s, first), second)
  {
    if s != [] {
      FilterFilter(s[1..], both, first, second);
      var head := if first(s[0]) then [s[0]] else [];
      FilterConcat(head, Filter(s[1..], first), second);
    }
  }

  /** The position of an element of a sequence. */
  function IndexOf<T(==)>(s: seq<T>, x: T): (i: nat)
    requires x in s
    ensures i < |s| && s[i] == x
  {
    if s[0] == x then 0 else 1 + IndexOf(s[1..], x)
  }

  /** Filtering by two predicates that agree everywhere gives the same result. */
  lemma {:induction false} FilterCongruent<T(!new)>(s: seq<T>, p: T -> bool, q: T -> bool)
    requires forall x :: p(x) == q(x)
    ensures Filter(s, p) == Filter(s, q)
  {
    if s != [] {
      FilterCongruent(s[1..], p, q);
    }
  }

  /** A position holding a match with no match before it is the first index. */
  lemma FirstIndexAt<T>(s: seq<T>, hit: T -> bool, k: nat)
    requires k < |s| && hit(s[k])
    requires forall j :: 0 <= j < k ==> !hit(s[j])
    ensures FirstIndex(s, hit) == Some(k)
  {
  }
}
