/**
Golomb-coded sets (BIP 158), src/blockfilter.cpp: mapping hashes into a range, building the sorted set, and
matching queries against it.  The bit stream is taken as an exact codec of the differences between neighbours.
*/
module BlockFilter {
  import opened Common
  import opened Numbers

  const HALF: nat := 0x1_0000_0000

  type uint64 = x: nat | x <= 0xFFFF_FFFF_FFFF_FFFF

  // ------------------------------------------------------------------ mapping into a range

  /** The upper half of a product, from four products of 32-bit halves none of whose sums overflows. */
  method MapIntoRange(x: uint64, n: uint64) returns (upper64: uint64)
    ensures upper64 == x * n / (MAX64 + 1)
  {
    var xHi, xLo := x / HALF, x % HALF;
    var nHi, nLo := n / HALF, n % HALF;
    HalfProduct(xHi, nHi);
    HalfProduct(xHi, nLo);
    HalfProduct(xLo, nHi);
    HalfProduct(xLo, nLo);
    var ac: uint64 := (xHi as nat) * nHi;
    var ad: uint64 := (xHi as nat) * nLo;
    var bc: uint64 := (xLo as nat) * nHi;
    var bd: uint64 := (xLo as nat) * nLo;
    var mid34: uint64 := bd / HALF + bc % HALF + ad % HALF;
    UpperHalf(x, n, ac, ad, bc, bd);
    upper64 := (ac as nat) + bc / HALF + ad / HALF + mid34 / HALF;
  }

  lemma HalfProduct(a: nat, b: nat)
    requires a < HALF && b < HALF
    ensures 0 <= a * b <= 0xFFFF_FFFE_0000_0001
  {
    MulMono(a, b, 0xFFFF_FFFF);
    MulMono(b, 0, a);
  }

  lemma UpperHalf(x: nat, n: nat, ac: nat, ad: nat, bc: nat, bd: nat)
    requires x <= MAX64 && n <= MAX64
    requires ac == (x / HALF) * (n / HALF) && ad == (x / HALF) * (n % HALF)
    requires bc == (x % HALF) * (n / HALF) && bd == (x % HALF) * (n % HALF)
    ensures
      var mid := bd / HALF + bc % HALF + ad % HALF;
      ac + bc / HALF + ad / HALF + mid / HALF == x * n / (MAX64 + 1) <= MAX64
  {
    var mid := bd / HALF + bc % HALF + ad % HALF;
    var upper := ac + bc / HALF + ad / HALF + mid / HALF;
    SplitProduct(x / HALF, x % HALF, n / HALF, n % HALF);
    assert x == x / HALF * HALF + x % HALF && n == n / HALF * HALF + n % HALF;
    var low := mid % HALF * HALF + bd % HALF;
    assert x * n == upper * (MAX64 + 1) + low;
    DivModUnique(x * n, upper, low, MAX64 + 1);
    ProductBound(x, n, upper);
  }

  lemma SplitProduct(a: int, b: int, c: int, d: int)
    ensures (a * HALF + b) * (c * HALF + d) == a * c * (HALF * HALF) + (a * d + b * c) * HALF + b * d
  {
    assert (a * HALF + b) * (c * HALF + d) == a * HALF * (c * HALF) + a * HALF * d + b * (c * HALF) + b * d;
    assert a * HALF * (c * HALF) == a * c * (HALF * HALF);
    assert a * HALF * d == a * d * HALF && b * (c * HALF) == b * c * HALF;
  }

  lemma ProductBound(x: nat, n: nat, upper: nat)
    requires x <= MAX64 && n <= MAX64 && upper * (MAX64 + 1) <= x * n
    ensures upper <= MAX64 && (n > 0 ==> upper < n)
  {
    MulMono(n, x, MAX64);
    if n > 0 && upper >= n { MulMono(MAX64 + 1, n, upper); }
  }

  /** What MapIntoRange computes: a number below n, unless n is zero. */
  ghost function Mapped(x: uint64, n: uint64): (r: nat)
    ensures r <= MAX64 && (n > 0 ==> r < n)
  {
    var q := (x as nat) * n / (MAX64 + 1);
    assert q * (MAX64 + 1) <= (x as nat) * n;
    ProductBound(x, n, q);
    q
  }

  // ------------------------------------------------------------------ sorted lists

  predicate Sorted(s: seq<nat>) { forall i, j :: 0 <= i < j < |s| ==> s[i] <= s[j] }

  function Insert(s: seq<nat>, x: nat): (t: seq<nat>)
    requires Sorted(s)
    ensures Sorted(t) && multiset(t) == multiset(s) + multiset{x}
  {
    if s == [] then [x]
    else if s[|s| - 1] <= x then s + [x]
    else
      var t := Insert(s[..|s| - 1], x);
      assert s == s[..|s| - 1] + [s[|s| - 1]];
      InsertTop(s, x, t);
      t + [s[|s| - 1]]
  }

  lemma InsertTop(s: seq<nat>, x: nat, t: seq<nat>)
    requires Sorted(s) && s != [] && x < s[|s| - 1]
    requires multiset(t) == multiset(s[..|s| - 1]) + multiset{x}
    ensures forall i :: 0 <= i < |t| ==> t[i] <= s[|s| - 1]
  {
    forall i | 0 <= i < |t|
      ensures t[i] <= s[|s| - 1]
    {
      assert t[i] in multiset(t);
      if t[i] != x {
        assert t[i] in multiset(s[..|s| - 1]);
        assert t[i] in s[..|s| - 1];
      }
    }
  }

  /** std::sort. */
  function Sort(s: seq<nat>): (t: seq<nat>)
    ensures Sorted(t) && multiset(t) == multiset(s)
  {
    if s == [] then []
    else
      assert s == s[..|s| - 1] + [s[|s| - 1]];
      Insert(Sort(s[..|s| - 1]), s[|s| - 1])
  }

  lemma SameMembers(s: seq<nat>, t: seq<nat>, x: nat)
    requires multiset(s) == multiset(t)
    ensures x in s <==> x in t
  {
    assert x in s <==> x in multiset(s);
    assert x in t <==> x in multiset(t);
  }

  // ------------------------------------------------------------------ differences

  /** The values whose successive differences are listed. */
  ghost function Values(deltas: seq<nat>): (v: seq<nat>)
    ensures |v| == |deltas|
  {
    if deltas == [] then []
    else
      var v := Values(deltas[..|deltas| - 1]);
      v + [Last(v) + deltas[|deltas| - 1]]
  }

  ghost function Last(v: seq<nat>): nat { if v == [] then 0 else v[|v| - 1] }

  lemma ValuesNext(deltas: seq<nat>, i: nat)
    requires i < |deltas|
    ensures Values(deltas[..i + 1]) == Values(deltas[..i]) + [Last(Values(deltas[..i])) + deltas[i]]
  {
    var t := deltas[..i + 1];
    assert t[..|t| - 1] == deltas[..i];
  }

  lemma {:induction false} ValuesSorted(deltas: seq<nat>)
    ensures Sorted(Values(deltas)) && forall i :: 0 <= i < |deltas| ==> Values(deltas)[i] <= Last(Values(deltas))
  {
    if deltas != [] { ValuesSorted(deltas[..|deltas| - 1]); }
  }

  lemma {:induction false} ValuesPrefix(deltas: seq<nat>, i: nat)
    requires i <= |deltas|
    ensures Values(deltas[..i]) == Values(deltas)[..i]
    decreases |deltas| - i
  {
    if i < |deltas| {
      ValuesPrefix(deltas, i + 1);
      ValuesNext(deltas, i);
      assert Values(deltas)[..i] == Values(deltas)[..i + 1][..i];
    } else {
      assert deltas[..i] == deltas;
    }
  }

  // ------------------------------------------------------------------ the filter

  /** The range of keys of a filter of n elements with the parameter M. */
  function RangeOf(n: nat, m: nat): (f: uint64)
    requires n < HALF && m < HALF
  {
    HalfProduct(n, m);
    n * m
  }

  ghost function Keys<E>(elements: seq<E>, hash: E -> uint64, f: uint64): (keys: seq<nat>)
    ensures |keys| == |elements| && forall i :: 0 <= i < |keys| ==> keys[i] == Mapped(hash(elements[i]), f)
  {
    seq(|elements|, i requires 0 <= i < |elements| => Mapped(hash(elements[i]), f))
  }

  class GCSFilter<E(!new,==)> {
    const hash: E -> uint64
    var m_N: nat
    var m_F: uint64
    var m_encoded: seq<nat>

    /** The number an element is looked up by. */
    ghost function Key(e: E): (k: nat)
      reads this
    {
      Mapped(hash(e), m_F)
    }

    ghost predicate Valid()
      reads this
    {
      m_N == |m_encoded|
    }

    constructor Empty(hash: E -> uint64)
      ensures Valid() && m_N == 0
    {
      this.hash := hash;
      m_N, m_F, m_encoded := 0, 0, [];
    }

    method HashToRange(e: E) returns (k: nat)
      requires Valid()
      ensures k == Key(e)
    {
      k := MapIntoRange(hash(e), m_F);
    }

    /** The keys of the elements, sorted; elements lists a set in some order. */
    method BuildHashedSet(elements: seq<E>) returns (h: seq<nat>)
      requires Valid()
      ensures Sorted(h) && |h| == |elements|
      ensures multiset(h) == multiset(Keys(elements, hash, m_F))
      ensures forall k :: k in h <==> exists e :: e in elements && Key(e) == k
    {
      hide Mapped, Sort;
      var keys := [];
      var i := 0;
      while i < |elements|
        invariant 0 <= i <= |elements|
        invariant |keys| == i && forall j :: 0 <= j < i ==> keys[j] == Key(elements[j])
      {
        var k := HashToRange(elements[i]);
        keys := keys + [k];
        i := i + 1;
      }
      h := Sort(keys);
      assert |multiset(h)| == |h| && |multiset(keys)| == |keys|;
      assert keys == Keys(elements, hash, m_F);
      forall k
        ensures k in h <==> exists e :: e in elements && Key(e) == k
      {
        SameMembers(h, keys, k);
        if k in keys {
          var j :| 0 <= j < |keys| && keys[j] == k;
          assert elements[j] in elements && Key(elements[j]) == k;
        }
        if e :| e in elements && Key(e) == k {
          var j :| 0 <= j < |elements| && elements[j] == e;
          assert keys[j] == k;
        }
      }
    }

    /** The filter of a set of elements, which elements lists. */
    constructor Of(hash: E -> uint64, m: nat, elements: seq<E>)
      requires m < HALF && |elements| < HALF
      ensures Valid() && this.hash == hash && m_N == |elements| && m_F == RangeOf(|elements|, m)
      ensures Sorted(Values(m_encoded)) && multiset(Values(m_encoded)) == multiset(Keys(elements, hash, m_F))
      ensures forall k :: k in Values(m_encoded) <==> exists e :: e in elements && Key(e) == k
    {
      hide Mapped, Sorted;
      this.hash := hash;
      m_N, m_F, m_encoded := 0, RangeOf(|elements|, m), [];
      new;
      var h := BuildHashedSet(elements);
      m_N := |elements|;
      var last := 0;
      var i := 0;
      SortedStart(h);
      while i < |h|
        invariant 0 <= i <= |h| && |m_encoded| == i
        invariant Values(m_encoded) == h[..i] && last == Last(h[..i])
        invariant m_F == RangeOf(|elements|, m) && m_N == |elements|
        modifies `m_encoded
      {
        SortedNext(h, i);
        var delta := h[i] - last;
        ghost var before := m_encoded;
        m_encoded := m_encoded + [delta];
        assert m_encoded[..i] == before && m_encoded[..i + 1] == m_encoded;
        ValuesNext(m_encoded, i);
        assert h[..i + 1] == h[..i] + [h[i]];
        last := h[i];
        i := i + 1;
      }
      assert h[..i] == h;
    }

    /** Scans the stored values and the sorted queries side by side. */
    method MatchInternal(queries: seq<nat>) returns (r: bool)
      requires Valid() && Sorted(queries)
      ensures r <==> exists k :: k in Values(m_encoded) && k in queries
    {
      hide Values, Sorted;
      ghost var v := Values(m_encoded);
      ValuesSorted(m_encoded);
      var value := 0;
      var index := 0;
      var i := 0;
      ScanStart(v, queries);
      while i < m_N
        invariant 0 <= i <= m_N && 0 <= index <= |queries|
        invariant value == Last(v[..i]) && Passed(v, i, queries, index)
      {
        value := value + m_encoded[i];
        ValueAt(m_encoded, i);
        ghost var from := index;
        var found;
        found, index := Seek(queries, index, value);
        if found {
          assert v[i] in v && queries[index] in queries;
          return true;
        }
        PassedNext(v, i, queries, from, index);
        if index == |queries| {
          PassedAll(v, i + 1, queries);
          return false;
        }
        i := i + 1;
      }
      NoneLeft(v, queries, index);
      return false;
    }

    /** The inner loop: moves on to the first query that is not below value. */
    static method Seek(queries: seq<nat>, from: nat, value: nat) returns (found: bool, index: nat)
      requires from <= |queries|
      ensures from <= index <= |queries|
      ensures forall j :: from <= j < index ==> queries[j] < value
      ensures found <==> index < |queries| && queries[index] == value
      ensures !found && index < |queries| ==> queries[index] > value
    {
      index := from;
      while true
        invariant from <= index <= |queries|
        invariant forall j :: from <= j < index ==> queries[j] < value
        decreases |queries| - index
      {
        if index == |queries| {
          return false, index;
        } else if queries[index] == value {
          return true, index;
        } else if queries[index] > value {
          return false, index;
        }
        index := index + 1;
      }
    }

    method Match(e: E) returns (r: bool)
      requires Valid()
      ensures r <==> Key(e) in Values(m_encoded)
    {
      var query := HashToRange(e);
      r := MatchInternal([query]);
      assert query in [query];
    }

    /** Some element of the set matches. */
    method MatchAny(elements: seq<E>) returns (r: bool)
      requires Valid()
      ensures r <==> exists e :: e in elements && Key(e) in Values(m_encoded)
    {
      hide Mapped, Sorted, Values;
      var queries := BuildHashedSet(elements);
      r := MatchInternal(queries);
    }
  }

  lemma SortedStart(h: seq<nat>)
    ensures Values([]) == h[..0] && Last(h[..0]) == 0
  {}

  lemma SortedNext(h: seq<nat>, i: nat)
    requires Sorted(h) && i < |h|
    ensures Last(h[..i]) <= h[i] && Last(h[..i + 1]) == h[i]
  {}

  /** Value i is the one before plus difference i. */
  lemma ValueAt(deltas: seq<nat>, i: nat)
    requires i < |deltas|
    ensures Values(deltas)[i] == Last(Values(deltas)[..i]) + deltas[i]
    ensures Last(Values(deltas)[..i + 1]) == Values(deltas)[i]
  {
    ValuesPrefix(deltas, i);
    ValuesPrefix(deltas, i + 1);
    ValuesNext(deltas, i);
  }

  /** The first i values match no query, and the queries before index are below the last of them. */
  ghost predicate Passed(v: seq<nat>, i: nat, queries: seq<nat>, index: nat) {
    && i <= |v| && index <= |queries| && (i == 0 ==> index == 0)
    && (forall a, b :: 0 <= a < i && 0 <= b < |queries| ==> v[a] != queries[b])
    && (forall b :: 0 <= b < index ==> queries[b] < v[i - 1])
  }

  lemma ScanStart(v: seq<nat>, queries: seq<nat>)
    ensures Passed(v, 0, queries, 0) && Last(v[..0]) == 0
  {}

  lemma PassedNext(v: seq<nat>, i: nat, queries: seq<nat>, from: nat, index: nat)
    requires Sorted(v) && Sorted(queries) && i < |v| && Passed(v, i, queries, from) && from <= index <= |queries|
    requires forall j :: from <= j < index ==> queries[j] < v[i]
    requires index < |queries| ==> queries[index] > v[i]
    ensures Passed(v, i + 1, queries, index)
  {
    forall b | 0 <= b < index
      ensures queries[b] < v[i]
    {
      if b < from { assert queries[b] < v[i - 1] <= v[i]; }
    }
    forall a, b | 0 <= a < i + 1 && 0 <= b < |queries|
      ensures v[a] != queries[b]
    {
      if a == i && b > index { assert queries[index] <= queries[b]; }
    }
  }

  /** When the queries are used up, no later value matches either. */
  lemma PassedAll(v: seq<nat>, i: nat, queries: seq<nat>)
    requires Sorted(v) && 0 < i && Passed(v, i, queries, |queries|)
    ensures !exists k :: k in v && k in queries
  {
    forall a, b | 0 <= a < |v| && 0 <= b < |queries|
      ensures v[a] != queries[b]
    {
      assert queries[b] < v[i - 1];
      if a >= i { assert v[i - 1] <= v[a]; }
    }
  }

  lemma NoneLeft(v: seq<nat>, queries: seq<nat>, index: nat)
    requires Passed(v, |v|, queries, index)
    ensures !exists k :: k in v && k in queries
  {}

  /** Building a filter throws exactly for 2^32 elements or more. */
  method NewFilter<E(!new,==)>(hash: E -> uint64, m: nat, elements: seq<E>) returns (f: GCSFilter?<E>)
    requires m < HALF
    ensures f == null <==> |elements| >= HALF
    ensures f != null ==> fresh(f) && f.Valid() && f.hash == hash && f.m_F == RangeOf(|elements|, m)
    ensures f != null ==> Sorted(Values(f.m_encoded))
    ensures f != null ==> forall k :: k in Values(f.m_encoded) <==> exists e :: e in elements && f.Key(e) == k
  {
    if |elements| % HALF != |elements| {
      return null;
    }
    f := new GCSFilter.Of(hash, m, elements);
  }

  /**
  A filter answers yes to every element it was built from; to others it answers yes exactly if they share a key
  with one of those.  A query for several elements is the disjunction of the single queries.
  */
  method Query<E(!new,==)>(hash: E -> uint64, m: nat, elements: seq<E>, e: E, others: seq<E>)
    returns (one: bool, any: bool)
    requires m < HALF && |elements| < HALF
    ensures e in elements ==> one
    ensures one <==> exists x :: x in elements && SameKey(hash, RangeOf(|elements|, m), x, e)
    ensures any <==> exists x, y :: x in elements && y in others && SameKey(hash, RangeOf(|elements|, m), x, y)
    ensures others == [e] ==> any == one
  {
    hide Mapped, Values, Sorted;
    var f := NewFilter(hash, m, elements);
    one := f.Match(e);
    any := f.MatchAny(others);
    if one {
      ghost var x :| x in elements && f.Key(x) == f.Key(e);
      assert SameKey(hash, RangeOf(|elements|, m), x, e);
    }
    if any {
      ghost var y :| y in others && f.Key(y) in Values(f.m_encoded);
      ghost var x :| x in elements && f.Key(x) == f.Key(y);
      assert SameKey(hash, RangeOf(|elements|, m), x, y);
    }
  }

  ghost predicate SameKey<E>(hash: E -> uint64, f: uint64, x: E, y: E) {
    Mapped(hash(x), f) == Mapped(hash(y), f)
  }
}
