/**
The rolling bloom filter, CRollingBloomFilter of src/bloom.cpp:217-319: two bits of generation number per cell,
held in pairs of 64-bit words.
*/
module RollingBloom {
  import opened Common
  import opened Numbers

  // ------------------------------------------------------------------ words as bits

  predicate Bit(p: bv64, b: bv6) { (p >> b) & 1 == 1 }

  // The machine operations on words, each with its effect on one bit.

  function And(p: bv64, q: bv64): bv64 { p & q }

  function Or(p: bv64, q: bv64): bv64 { p | q }

  function Xor(p: bv64, q: bv64): bv64 { p ^ q }

  function Not(p: bv64): bv64 { !p }

  /** The word v << b, for v zero or one. */
  function At(v: bool, b: bv6): bv64 { (if v then 1 else 0) << b }

  /** The word 0 - v, for v zero or one: all ones or all zeros. */
  function Mask(v: bool): bv64 { 0 - (if v then 1 else 0) }

  lemma ShiftAnd(p: bv64, q: bv64, c: bv6)
    ensures Bit(p & q, c) <==> Bit(p, c) && Bit(q, c)
  {}

  lemma BitAnd(p: bv64, q: bv64, c: bv6)
    ensures Bit(And(p, q), c) <==> Bit(p, c) && Bit(q, c)
  {
    hide Bit;
    ShiftAnd(p, q, c);
  }

  lemma ShiftOr(p: bv64, q: bv64, c: bv6)
    ensures Bit(p | q, c) <==> Bit(p, c) || Bit(q, c)
  {}

  lemma BitOr(p: bv64, q: bv64, c: bv6)
    ensures Bit(Or(p, q), c) <==> Bit(p, c) || Bit(q, c)
  {
    hide Bit;
    ShiftOr(p, q, c);
  }

  lemma ShiftXor(p: bv64, q: bv64, c: bv6)
    ensures Bit(p ^ q, c) <==> Bit(p, c) != Bit(q, c)
  {}

  lemma BitXor(p: bv64, q: bv64, c: bv6)
    ensures Bit(Xor(p, q), c) <==> Bit(p, c) != Bit(q, c)
  {
    hide Bit;
    ShiftXor(p, q, c);
  }

  lemma BitNot(p: bv64, c: bv6)
    ensures Bit(Not(p), c) <==> !Bit(p, c)
  {}

  lemma BitAt(v: bool, b: bv6, c: bv6)
    ensures Bit(At(v, b), c) <==> v && b == c
  {}

  lemma BitMask(v: bool, c: bv6)
    ensures Bit(Mask(v), c) <==> v
  {}

  /** The word with bit b replaced. */
  function PutBit(p: bv64, b: bv6, v: bool): (q: bv64) {
    Or(And(p, Not(At(true, b))), At(v, b))
  }

  lemma PutBitIs(p: bv64, b: bv6, v: bool, c: bv6)
    ensures Bit(PutBit(p, b, v), c) <==> if c == b then v else Bit(p, c)
  {
    hide Bit, And, Or, Not, At;
    var one := At(true, b);
    BitOr(And(p, Not(one)), At(v, b), c);
    BitAnd(p, Not(one), c);
    BitNot(one, c);
    BitAt(true, b, c);
    BitAt(v, b, c);
  }

  /** The keep mask: zero exactly at the bits that carry the generation number (v1, v2). */
  function Keep(p1: bv64, p2: bv64, v1: bool, v2: bool): bv64 {
    Or(Xor(p1, Mask(v1)), Xor(p2, Mask(v2)))
  }

  lemma KeepIs(p1: bv64, p2: bv64, v1: bool, v2: bool, c: bv6)
    ensures Bit(Keep(p1, p2, v1, v2), c) <==> !(Bit(p1, c) == v1 && Bit(p2, c) == v2)
  {
    hide Bit, Or, Xor, Mask;
    BitOr(Xor(p1, Mask(v1)), Xor(p2, Mask(v2)), c);
    BitXor(p1, Mask(v1), c);
    BitXor(p2, Mask(v2), c);
    BitMask(v1, c);
    BitMask(v2, c);
  }

  // ------------------------------------------------------------------ cells and generations

  /** One cell of the filter: a pair of words and a bit position. */
  datatype Cell = Cell(pair: nat, bit: bv6)

  /** The generation number in a pair of words at a bit: 0 is unset. */
  function Number(p1: bv64, p2: bv64, b: bv6): (g: nat)
    ensures g <= 3
  {
    (if Bit(p1, b) then 1 else 0) + (if Bit(p2, b) then 2 else 0)
  }

  predicate InRange(d: seq<bv64>, c: Cell) { 2 * c.pair + 1 < |d| }

  function Gen(d: seq<bv64>, c: Cell): (g: nat)
    requires InRange(d, c)
    ensures g <= 3
  {
    Number(d[2 * c.pair], d[2 * c.pair + 1], c.bit)
  }

  lemma NumberPut(p1: bv64, p2: bv64, b: bv6, g: nat, c: bv6)
    requires 1 <= g <= 3
    ensures Number(PutBit(p1, b, g % 2 == 1), PutBit(p2, b, g / 2 == 1), c) == if c == b then g else Number(p1, p2, c)
  {
    hide Bit, PutBit;
    PutBitIs(p1, b, g % 2 == 1, c);
    PutBitIs(p2, b, g / 2 == 1, c);
  }

  lemma NumberWipe(p1: bv64, p2: bv64, g: nat, c: bv6)
    requires 1 <= g <= 3
    ensures
      var mask := Keep(p1, p2, g % 2 == 1, g / 2 == 1);
      Number(And(p1, mask), And(p2, mask), c) == if Number(p1, p2, c) == g then 0 else Number(p1, p2, c)
  {
    hide Bit, Keep, And;
    var mask := Keep(p1, p2, g % 2 == 1, g / 2 == 1);
    KeepIs(p1, p2, g % 2 == 1, g / 2 == 1, c);
    BitAnd(p1, mask, c);
    BitAnd(p2, mask, c);
  }

  // ------------------------------------------------------------------ the position of a hash

  /** Replaces h % n: multiplies and keeps the upper half of a 64-bit product. */
  function FastMod(x: nat, n: nat): (r: nat)
    requires x < 0x1_0000_0000 && 0 < n <= 0x1_0000_0000
    ensures r < n
  {
    FastModBound(x, n);
    x * n / 0x1_0000_0000
  }

  lemma FastModBound(x: nat, n: nat)
    requires x < 0x1_0000_0000 && 0 < n <= 0x1_0000_0000
    ensures x * n < 0x1_0000_0000_0000_0000
    ensures 0 <= x * n / 0x1_0000_0000 < n
  {
    assert x * n <= 0xFFFF_FFFF * n;
  }

  predicate WordsOk(n: nat) { 2 <= n <= 0x1_0000_0000 && n % 2 == 0 }

  /** The cell that hash value h selects in a filter of n words. */
  function CellOf(h: nat, n: nat): (c: Cell)
    requires h < 0x1_0000_0000 && WordsOk(n)
    ensures 2 * c.pair + 1 < n
  {
    Cell(FastMod(h, n) / 2, (h % 64) as bv6)
  }

  // ------------------------------------------------------------------ what the filter remembers

  /** How keys are spread over a filter of the given number of words: the cells of each hash function. */
  datatype Spread<!K> = Spread(hash: (nat, nat, K) -> uint32, tweak: nat, funcs: nat, words: nat)
  {
    function CellAt(n: nat, key: K): (c: Cell)
      requires WordsOk(words)
      ensures 2 * c.pair + 1 < words
    {
      CellOf(hash(n, tweak, key), words)
    }
  }

  /** How many generations ago the number g was current, when gen is. */
  function Age(gen: int, g: int): (a: int)
    ensures 0 <= a <= 2
  {
    (gen - g) % 3
  }

  function NextGen(gen: nat): (g: nat) { if gen == 3 then 1 else gen + 1 }

  /** Every cell of the key is set, in a generation no older than age. */
  ghost predicate Live<K>(d: seq<bv64>, k: Spread<K>, gen: nat, key: K, age: int)
    requires WordsOk(k.words) && |d| == k.words
  {
    forall n :: 0 <= n < k.funcs ==> Gen(d, k.CellAt(n, key)) != 0 && Age(gen, Gen(d, k.CellAt(n, key))) <= age
  }

  /** The first of the inserted keys that belong to a generation of at most the given age. */
  function Since(m: nat, e: nat, perGen: nat, age: nat): int { m - e - age * perGen }

  /** How many of m keys are in the current generation. */
  function Current(m: nat, perGen: nat): (e: nat)
    requires perGen >= 1
    ensures e <= perGen && e <= m && (m > 0 ==> e > 0)
  {
    if m == 0 then 0
    else
      CurrentBound(m - 1, perGen);
      (m - 1) % perGen + 1
  }

  lemma CurrentBound(m: nat, p: nat)
    requires p >= 1
    ensures 0 <= m % p <= m && m % p < p
  {}

  /** One more key: into the current generation, or the first of a new one. */
  lemma CurrentNext(m: nat, p: nat)
    requires p >= 1
    ensures Current(m + 1, p) == (if Current(m, p) == p then 0 else Current(m, p)) + 1
  {
    if m == 0 {
      Next(0, p, 0);
    } else {
      var q, r := (m - 1) / p, (m - 1) % p;
      if r == p - 1 {
        Next(m, p, q + 1);
      } else {
        DivModUnique(m, q, r + 1, p);
      }
    }
  }

  lemma Next(m: nat, p: nat, q: nat)
    requires p >= 1 && m == q * p
    ensures m % p == 0
  {
    DivModUnique(m, q, 0, p);
  }

  /** No false negatives: the keys of the last three generations, the current one of which has e keys. */
  ghost predicate Remembered<K>(d: seq<bv64>, k: Spread<K>, gen: nat, hist: seq<K>, e: nat, perGen: nat)
    requires WordsOk(k.words) && |d| == k.words
  {
    forall i, a :: 0 <= i < |hist| && 0 <= a <= 2 && Since(|hist|, e, perGen, a) <= i ==> Live(d, k, gen, hist[i], a)
  }

  /** Some key inserted from index from on has the cell. */
  ghost predicate HasWriter<K>(k: Spread<K>, hist: seq<K>, c: Cell, from: int)
    requires WordsOk(k.words)
  {
    exists i, n :: 0 <= i < |hist| && from <= i && 0 <= n < k.funcs && k.CellAt(n, hist[i]) == c
  }

  /** Every cell of the key was written by some key inserted from index from on. */
  ghost predicate AllWritten<K>(k: Spread<K>, hist: seq<K>, key: K, from: int)
    requires WordsOk(k.words)
  {
    forall n :: 0 <= n < k.funcs ==> HasWriter(k, hist, k.CellAt(n, key), from)
  }

  /** Nothing stale: a set cell was written by a key no older than the generation it shows. */
  ghost predicate Accounted<K>(d: seq<bv64>, k: Spread<K>, gen: nat, hist: seq<K>, e: nat, perGen: nat)
    requires WordsOk(k.words) && |d| == k.words
  {
    forall c :: InRange(d, c) && Gen(d, c) != 0 ==>
      HasWriter(k, hist, c, Since(|hist|, e, perGen, Age(gen, Gen(d, c))))
  }

  /** The cells that showed g are cleared; the others are unchanged. */
  ghost predicate Wiped(d: seq<bv64>, d': seq<bv64>, g: nat) {
    |d'| == |d| && forall c :: InRange(d, c) ==> Gen(d', c) == if Gen(d, c) == g then 0 else Gen(d, c)
  }

  /** The cells of the first j hash functions of the key show g; the others are unchanged. */
  ghost predicate Stamped<K>(d: seq<bv64>, d': seq<bv64>, k: Spread<K>, key: K, g: nat, j: nat)
    requires WordsOk(k.words) && |d| == k.words
  {
    && |d'| == |d|
    && forall c :: InRange(d, c) ==> Gen(d', c) == if IsCell(k, key, j, c) then g else Gen(d, c)
  }

  ghost predicate IsCell<K>(k: Spread<K>, key: K, j: nat, c: Cell)
    requires WordsOk(k.words)
  {
    exists n :: 0 <= n < j && k.CellAt(n, key) == c
  }

  lemma AgeNext(gen: nat, g: nat)
    requires 1 <= gen <= 3 && 1 <= g <= 3
    ensures g != NextGen(gen) ==> Age(NextGen(gen), g) == Age(gen, g) + 1
    ensures g == NextGen(gen) ==> Age(gen, g) == 2
  {}

  /** Starting a generation by wiping the cells that carry its number loses no key that must be remembered. */
  lemma RollRemembers<K>(d: seq<bv64>, d': seq<bv64>, k: Spread<K>, gen: nat, hist: seq<K>, perGen: nat)
    requires WordsOk(k.words) && |d| == k.words && 1 <= gen <= 3
    requires Remembered(d, k, gen, hist, perGen, perGen) && Wiped(d, d', NextGen(gen))
    ensures Remembered(d', k, NextGen(gen), hist, 0, perGen)
  {
    hide Gen, CellOf;
    forall i, a | 0 <= i < |hist| && 0 <= a <= 2 && Since(|hist|, 0, perGen, a) <= i
      ensures Live(d', k, NextGen(gen), hist[i], a)
    {
      if a > 0 {
        assert Since(|hist|, perGen, perGen, a - 1) == Since(|hist|, 0, perGen, a);
        assert Live(d, k, gen, hist[i], a - 1);
        forall n | 0 <= n < k.funcs
          ensures Gen(d', k.CellAt(n, hist[i])) != 0 && Age(NextGen(gen), Gen(d', k.CellAt(n, hist[i]))) <= a
        {
          AgeNext(gen, Gen(d, k.CellAt(n, hist[i])));
        }
      }
    }
  }

  /** Wiping leaves no cell of a forgotten generation behind. */
  lemma RollAccounts<K>(d: seq<bv64>, d': seq<bv64>, k: Spread<K>, gen: nat, hist: seq<K>, perGen: nat)
    requires WordsOk(k.words) && |d| == k.words && 1 <= gen <= 3
    requires Accounted(d, k, gen, hist, perGen, perGen) && Wiped(d, d', NextGen(gen))
    ensures Accounted(d', k, NextGen(gen), hist, 0, perGen)
  {
    hide Gen, CellOf, HasWriter;
    forall c | InRange(d', c) && Gen(d', c) != 0
      ensures HasWriter(k, hist, c, Since(|hist|, 0, perGen, Age(NextGen(gen), Gen(d', c))))
    {
      var g := Gen(d, c);
      AgeNext(gen, g);
      assert Since(|hist|, perGen, perGen, Age(gen, g)) == Since(|hist|, 0, perGen, Age(gen, g) + 1);
    }
  }

  /** Stamping a key's cells, even over other keys' cells, makes no key be forgotten. */
  lemma StampRemembers<K>(d: seq<bv64>, d': seq<bv64>, k: Spread<K>, gen: nat, hist: seq<K>, e: nat, perGen: nat, key: K)
    requires WordsOk(k.words) && |d| == k.words && 1 <= gen <= 3
    requires Remembered(d, k, gen, hist, e, perGen) && Stamped(d, d', k, key, gen, k.funcs)
    ensures Remembered(d', k, gen, hist + [key], e + 1, perGen)
  {
    hide Gen, CellOf;
    var hist' := hist + [key];
    forall i, a | 0 <= i < |hist'| && 0 <= a <= 2 && Since(|hist'|, e + 1, perGen, a) <= i
      ensures Live(d', k, gen, hist'[i], a)
    {
      if i < |hist| {
        assert Since(|hist|, e, perGen, a) <= i;
        assert Live(d, k, gen, hist[i], a);
      } else {
        assert forall n :: 0 <= n < k.funcs ==> IsCell(k, key, k.funcs, k.CellAt(n, key));
      }
    }
  }

  lemma StampAccounts<K>(d: seq<bv64>, d': seq<bv64>, k: Spread<K>, gen: nat, hist: seq<K>, e: nat, perGen: nat, key: K)
    requires WordsOk(k.words) && |d| == k.words && 1 <= gen <= 3 && e <= |hist|
    requires Accounted(d, k, gen, hist, e, perGen) && Stamped(d, d', k, key, gen, k.funcs)
    ensures Accounted(d', k, gen, hist + [key], e + 1, perGen)
  {
    hide Gen, CellOf, HasWriter, IsCell;
    var hist' := hist + [key];
    forall c | InRange(d', c) && Gen(d', c) != 0
      ensures HasWriter(k, hist', c, Since(|hist'|, e + 1, perGen, Age(gen, Gen(d', c))))
    {
      if IsCell(k, key, k.funcs, c) {
        NewWriter(k, hist, key, c, Since(|hist'|, e + 1, perGen, Age(gen, Gen(d', c))));
      } else {
        WriterStays(k, hist, key, c, Since(|hist|, e, perGen, Age(gen, Gen(d, c))));
      }
    }
  }

  lemma NewWriter<K>(k: Spread<K>, hist: seq<K>, key: K, c: Cell, from: int)
    requires WordsOk(k.words) && from <= |hist| && IsCell(k, key, k.funcs, c)
    ensures HasWriter(k, hist + [key], c, from)
  {
    hide CellOf;
    var n :| 0 <= n < k.funcs && k.CellAt(n, key) == c;
    assert k.CellAt(n, (hist + [key])[|hist|]) == c;
  }

  lemma WriterStays<K>(k: Spread<K>, hist: seq<K>, key: K, c: Cell, from: int)
    requires WordsOk(k.words) && HasWriter(k, hist, c, from)
    ensures HasWriter(k, hist + [key], c, from)
  {
    hide CellOf;
    var i, n :| 0 <= i < |hist| && from <= i && 0 <= n < k.funcs && k.CellAt(n, hist[i]) == c;
    assert k.CellAt(n, (hist + [key])[i]) == c;
  }

  // ------------------------------------------------------------------ the filter

  class RollingBloomFilter<K(!new,==)> {
    const hash: (nat, nat, K) -> uint32
    const nHashFuncs: nat
    const nEntriesPerGeneration: nat
    const data: array<bv64>
    var nEntriesThisGeneration: nat
    var nGeneration: nat
    var nTweak: nat

    /** The keys inserted since the last reset. */
    ghost var history: seq<K>

    ghost function Cells(): Spread<K>
      reads this
    {
      Spread(hash, nTweak, nHashFuncs, data.Length)
    }

    ghost predicate Valid()
      reads this, data
    {
      && WordsOk(data.Length) && nHashFuncs >= 1 && nEntriesPerGeneration >= 1
      && 1 <= nGeneration <= 3
      && nEntriesThisGeneration <= nEntriesPerGeneration && nEntriesThisGeneration <= |history|
      && nEntriesThisGeneration == Current(|history|, nEntriesPerGeneration)
      && Remembered(data[..], Cells(), nGeneration, history, nEntriesThisGeneration, nEntriesPerGeneration)
      && Accounted(data[..], Cells(), nGeneration, history, nEntriesThisGeneration, nEntriesPerGeneration)
    }

    /**
    The number of hash functions and of filter bits, which the program computes in floating point from the wanted
    rate of false positives, are parameters.  The filter is usable unless a 32-bit sum is zero or wraps around.
    */
    constructor (nElements: uint32, hash: (nat, nat, K) -> uint32, nHashFuncs: nat, nFilterBits: uint32, tweak: nat)
      requires 1 <= nHashFuncs <= 50
      ensures history == [] && fresh(data) && nTweak == tweak
      ensures Valid() <==> 1 <= nElements < 0xFFFF_FFFF && 1 <= nFilterBits <= 0x1_0000_0000 - 64
      ensures this.hash == hash && this.nHashFuncs == nHashFuncs
      ensures Valid() ==> nElements <= 2 * nEntriesPerGeneration <= nElements + 1
      ensures Valid() ==> nEntriesPerGeneration == (nElements + 1) / 2 && data.Length == (nFilterBits + 63) / 64 * 2
    {
      this.hash := hash;
      this.nHashFuncs := nHashFuncs;
      nEntriesPerGeneration := (nElements + 1) % 0x1_0000_0000 / 2;
      data := new bv64[(nFilterBits + 63) % 0x1_0000_0000 / 64 * 2];
      history := [];
      nEntriesThisGeneration, nGeneration, nTweak := 0, 1, 0;
      new;
      Reset(tweak);
    }

    /** Forgets everything and changes the tweak of the hash functions. */
    method Reset(tweak: nat)
      modifies this, data
      ensures history == [] && nTweak == tweak && (forall p :: 0 <= p < data.Length ==> data[p] == 0)
      ensures Valid() <==> WordsOk(data.Length) && nHashFuncs >= 1 && nEntriesPerGeneration >= 1
    {
      nTweak := tweak;
      nEntriesThisGeneration := 0;
      nGeneration := 1;
      history := [];
      var p := 0;
      while p < data.Length
        invariant 0 <= p <= data.Length
        invariant forall q :: 0 <= q < p ==> data[q] == 0
        modifies data
      {
        data[p] := 0;
        p := p + 1;
      }
      if WordsOk(data.Length) {
        forall c | InRange(data[..], c)
          ensures Gen(data[..], c) == 0
        {
          NumberZero(c.bit);
        }
      }
    }

    /** Clears the cells that carry the number of the new generation. */
    method Wipe()
      requires WordsOk(data.Length) && 1 <= nGeneration <= 3
      modifies data
      ensures Wiped(old(data[..]), data[..], nGeneration)
    {
      hide Gen, Keep, And, Number;
      ghost var d := data[..];
      var p := 0;
      while p < data.Length
        invariant 0 <= p <= data.Length && p % 2 == 0
        invariant forall q :: p <= q < data.Length ==> data[q] == d[q]
        invariant forall w :: 0 <= w && 2 * w < p ==> PairWiped(d, data[..], nGeneration, w)
      {
        ghost var before := data[..];
        var p1, p2 := data[p], data[p + 1];
        var mask := Keep(p1, p2, nGeneration % 2 == 1, nGeneration / 2 == 1);
        data[p] := And(p1, mask);
        data[p + 1] := And(p2, mask);
        assert PairWiped(d, data[..], nGeneration, p / 2);
        forall w | 0 <= w && 2 * w < p
          ensures PairWiped(d, data[..], nGeneration, w)
        {
          assert PairWiped(d, before, nGeneration, w);
        }
        p := p + 2;
      }
      PairsWiped(d, data[..], nGeneration);
    }

    /** Writes the current generation number into one cell. */
    method Stamp(h: uint32)
      requires WordsOk(data.Length) && 1 <= nGeneration <= 3
      modifies data
      ensures forall c :: InRange(data[..], c) ==>
        Gen(data[..], c) == if c == CellOf(h, data.Length) then nGeneration else Gen(old(data[..]), c)
    {
      hide PutBit, Number, FastMod;
      ghost var d := data[..];
      var bit := (h % 64) as bv6;
      var pos := FastMod(h, data.Length);
      var lo, hi := pos / 2 * 2, pos / 2 * 2 + 1;
      data[lo] := PutBit(data[lo], bit, nGeneration % 2 == 1);
      data[hi] := PutBit(data[hi], bit, nGeneration / 2 == 1);
      forall c | InRange(data[..], c)
        ensures Gen(data[..], c) == if c == CellOf(h, data.Length) then nGeneration else Gen(d, c)
      {
        NumberPut(d[lo], d[hi], bit, nGeneration, c.bit);
      }
    }

    method Insert(key: K)
      requires Valid()
      modifies this, data
      ensures Valid() && history == old(history) + [key] && nTweak == old(nTweak)
    {
      hide Gen, CellOf, Remembered, Accounted, Wiped, Stamped, Current;
      CurrentNext(|history|, nEntriesPerGeneration);
      if nEntriesThisGeneration == nEntriesPerGeneration {
        ghost var d, gen := data[..], nGeneration;
        nEntriesThisGeneration := 0;
        nGeneration := nGeneration + 1;
        if nGeneration == 4 {
          nGeneration := 1;
        }
        Wipe();
        RollRemembers(d, data[..], Cells(), gen, history, nEntriesPerGeneration);
        RollAccounts(d, data[..], Cells(), gen, history, nEntriesPerGeneration);
      }
      ghost var d := data[..];
      StampAll(key);
      StampRemembers(d, data[..], Cells(), nGeneration, history, nEntriesThisGeneration, nEntriesPerGeneration, key);
      StampAccounts(d, data[..], Cells(), nGeneration, history, nEntriesThisGeneration, nEntriesPerGeneration, key);
      nEntriesThisGeneration := nEntriesThisGeneration + 1;
      history := history + [key];
    }

    /** The loop of insert over the hash functions. */
    method StampAll(key: K)
      requires WordsOk(data.Length) && 1 <= nGeneration <= 3
      modifies data
      ensures Stamped(old(data[..]), data[..], Cells(), key, nGeneration, nHashFuncs)
    {
      hide Gen, CellOf;
      ghost var d := data[..];
      var n := 0;
      while n < nHashFuncs
        invariant 0 <= n <= nHashFuncs
        invariant Stamped(d, data[..], Cells(), key, nGeneration, n)
      {
        ghost var before := data[..];
        Stamp(hash(n, nTweak, key));
        forall c | InRange(d, c)
          ensures Gen(data[..], c) == if IsCell(Cells(), key, n + 1, c) then nGeneration else Gen(d, c)
        {
          IsCellNext(Cells(), key, n, c);
        }
        n := n + 1;
      }
    }

    /**
    True for every key among the last ones: all of the current generation and the two before it, which are at least
    the last 2 * nEntriesPerGeneration.  False unless every cell of the key was written by one of those keys.
    */
    method Contains(key: K) returns (r: bool)
      requires Valid()
      ensures r <==> forall n :: 0 <= n < nHashFuncs ==> Gen(data[..], Cells().CellAt(n, key)) != 0
      ensures key in history[Max0(|history| - nEntriesThisGeneration - 2 * nEntriesPerGeneration)..] ==> r
      ensures key in history[Max0(|history| - 2 * nEntriesPerGeneration)..] ==> r
      ensures r <==> AllWritten(Cells(), history, key, |history| - nEntriesThisGeneration - 2 * nEntriesPerGeneration)
    {
      hide Number, FastMod, HasWriter;
      ghost var k := Cells();
      RecentLive(data[..], k, nGeneration, history, nEntriesThisGeneration, nEntriesPerGeneration, key);
      var n := 0;
      while n < nHashFuncs
        invariant 0 <= n <= nHashFuncs
        invariant forall j :: 0 <= j < n ==> Gen(data[..], k.CellAt(j, key)) != 0
      {
        var h := hash(n, nTweak, key);
        var bit := (h % 64) as bv6;
        var pos := FastMod(h, data.Length);
        NumberSet(data[pos / 2 * 2], data[pos / 2 * 2 + 1], bit);
        assert k.CellAt(n, key) == Cell(pos / 2, bit);
        if !Bit(Or(data[pos / 2 * 2], data[pos / 2 * 2 + 1]), bit) {
          return false;
        }
        n := n + 1;
      }
      return true;
    }
  }

  function Max0(x: int): (y: nat) { if x < 0 then 0 else x }

  lemma NumberZero(b: bv6)
    ensures Number(0, 0, b) == 0
  {}

  lemma NumberSet(p1: bv64, p2: bv64, b: bv6)
    ensures Bit(Or(p1, p2), b) <==> Number(p1, p2, b) != 0
  {
    hide Bit, Or;
    BitOr(p1, p2, b);
  }

  ghost predicate PairWiped(d: seq<bv64>, d': seq<bv64>, g: nat, w: nat)
    requires 2 * w + 1 < |d| == |d'|
  {
    var mask := Keep(d[2 * w], d[2 * w + 1], g % 2 == 1, g / 2 == 1);
    d'[2 * w] == And(d[2 * w], mask) && d'[2 * w + 1] == And(d[2 * w + 1], mask)
  }

  lemma PairsWiped(d: seq<bv64>, d': seq<bv64>, g: nat)
    requires |d| == |d'| && |d| % 2 == 0 && 1 <= g <= 3
    requires forall w :: 0 <= w && 2 * w < |d| ==> PairWiped(d, d', g, w)
    ensures Wiped(d, d', g)
  {
    hide Number, Keep, And;
    forall c | InRange(d, c)
      ensures Gen(d', c) == if Gen(d, c) == g then 0 else Gen(d, c)
    {
      assert PairWiped(d, d', g, c.pair);
      NumberWipe(d[2 * c.pair], d[2 * c.pair + 1], g, c.bit);
    }
  }

  lemma IsCellNext<K>(k: Spread<K>, key: K, j: nat, c: Cell)
    requires WordsOk(k.words)
    ensures IsCell(k, key, j + 1, c) <==> IsCell(k, key, j, c) || k.CellAt(j, key) == c
  {
    hide CellOf;
    if IsCell(k, key, j + 1, c) {
      var n :| 0 <= n < j + 1 && k.CellAt(n, key) == c;
      if n < j { assert IsCell(k, key, j, c); }
    }
  }

  /** What the two invariants say about looking up one key. */
  lemma RecentLive<K(!new)>(d: seq<bv64>, k: Spread<K>, gen: nat, hist: seq<K>, e: nat, perGen: nat, key: K)
    requires WordsOk(k.words) && |d| == k.words
    requires Remembered(d, k, gen, hist, e, perGen) && Accounted(d, k, gen, hist, e, perGen)
    ensures key in hist[Max0(|hist| - e - 2 * perGen)..] ==>
      forall n :: 0 <= n < k.funcs ==> Gen(d, k.CellAt(n, key)) != 0
    ensures forall n :: 0 <= n < k.funcs ==>
      (Gen(d, k.CellAt(n, key)) != 0 <==> HasWriter(k, hist, k.CellAt(n, key), |hist| - e - 2 * perGen))
  {
    hide Gen, CellOf, Remembered, Accounted, HasWriter;
    forall n | 0 <= n < k.funcs
      ensures Gen(d, k.CellAt(n, key)) != 0 <==> HasWriter(k, hist, k.CellAt(n, key), |hist| - e - 2 * perGen)
      ensures key in hist[Max0(|hist| - e - 2 * perGen)..] ==> Gen(d, k.CellAt(n, key)) != 0
    {
      CellExact(d, k, gen, hist, e, perGen, k.CellAt(n, key));
      if key in hist[Max0(|hist| - e - 2 * perGen)..] {
        OwnWriter(k, hist, key, n, |hist| - e - 2 * perGen);
      }
    }
  }

  /** A cell is set exactly if a key of the last three generations has it. */
  lemma CellExact<K(!new)>(d: seq<bv64>, k: Spread<K>, gen: nat, hist: seq<K>, e: nat, perGen: nat, c: Cell)
    requires WordsOk(k.words) && |d| == k.words && InRange(d, c)
    requires Remembered(d, k, gen, hist, e, perGen) && Accounted(d, k, gen, hist, e, perGen)
    ensures Gen(d, c) != 0 <==> HasWriter(k, hist, c, |hist| - e - 2 * perGen)
  {
    hide Gen, CellOf, Remembered, HasWriter;
    if Gen(d, c) != 0 {
      WriterEarlier(k, hist, c, Since(|hist|, e, perGen, Age(gen, Gen(d, c))), |hist| - e - 2 * perGen);
    }
    if HasWriter(k, hist, c, |hist| - e - 2 * perGen) {
      WrittenShows(d, k, gen, hist, e, perGen, c);
    }
  }

  /** A recent key has written its own cells. */
  lemma OwnWriter<K(!new)>(k: Spread<K>, hist: seq<K>, key: K, n: nat, from: int)
    requires WordsOk(k.words) && n < k.funcs && from <= |hist| && key in hist[Max0(from)..]
    ensures HasWriter(k, hist, k.CellAt(n, key), from)
  {
    hide CellOf;
    var j :| 0 <= j < |hist[Max0(from)..]| && hist[Max0(from)..][j] == key;
    assert hist[Max0(from) + j] == key;
  }

  /** A cell of a remembered key is set. */
  lemma WrittenShows<K(!new)>(d: seq<bv64>, k: Spread<K>, gen: nat, hist: seq<K>, e: nat, perGen: nat, c: Cell)
    requires WordsOk(k.words) && |d| == k.words && Remembered(d, k, gen, hist, e, perGen)
    requires InRange(d, c) && HasWriter(k, hist, c, |hist| - e - 2 * perGen)
    ensures Gen(d, c) != 0
  {
    hide Gen, CellOf;
    var i, n :| 0 <= i < |hist| && |hist| - e - 2 * perGen <= i && 0 <= n < k.funcs && k.CellAt(n, hist[i]) == c;
    assert Since(|hist|, e, perGen, 2) <= i;
    assert Live(d, k, gen, hist[i], 2);
  }

  lemma WriterEarlier<K>(k: Spread<K>, hist: seq<K>, c: Cell, from: int, from': int)
    requires WordsOk(k.words) && HasWriter(k, hist, c, from) && from' <= from
    ensures HasWriter(k, hist, c, from')
  {
    hide CellOf;
  }

  /** A whole run: after any inserts into a new filter, each of the last nElements keys is found. */
  method InsertAll<K(!new,==)>(nElements: uint32, hash: (nat, nat, K) -> uint32, nHashFuncs: nat, nFilterBits: uint32,
                               tweak: nat, keys: seq<K>, key: K)
    returns (r: bool)
    requires 1 <= nElements < 0xFFFF_FFFF
    requires 1 <= nHashFuncs <= 50 && 1 <= nFilterBits <= 0x1_0000_0000 - 64
    ensures key in keys[Max0(|keys| - nElements)..] ==> r
    ensures keys == [] ==> !r
    ensures var k := Spread(hash, tweak, nHashFuncs, (nFilterBits + 63) / 64 * 2);
            var perGen := (nElements + 1) / 2;
            && WordsOk(k.words)
            && (r <==> AllWritten(k, keys, key, |keys| - Current(|keys|, perGen) - 2 * perGen))
  {
    hide AllWritten, CellOf, Current;
    var filter := new RollingBloomFilter(nElements, hash, nHashFuncs, nFilterBits, tweak);
    var i := 0;
    while i < |keys|
      invariant 0 <= i <= |keys|
      invariant filter.Valid() && filter.history == keys[..i]
      invariant nElements <= 2 * filter.nEntriesPerGeneration && filter.nTweak == tweak
      invariant fresh(filter) && fresh(filter.data)
    {
      filter.Insert(keys[i]);
      i := i + 1;
    }
    assert keys[..i] == keys;
    SuffixIn(keys, key, Max0(|keys| - 2 * filter.nEntriesPerGeneration), Max0(|keys| - nElements));
    ghost var k, perGen := filter.Cells(), filter.nEntriesPerGeneration;
    r := filter.Contains(key);
    assert filter.history == keys && filter.nEntriesThisGeneration == Current(|keys|, perGen);
    NoWriter(k, key, |keys| - Current(|keys|, perGen) - 2 * perGen);
  }

  lemma NoWriter<K(!new)>(k: Spread<K>, key: K, from: int)
    requires WordsOk(k.words) && k.funcs >= 1
    ensures !AllWritten(k, [], key, from)
  {
    assert !HasWriter(k, [], k.CellAt(0, key), from);
  }

  lemma SuffixIn<K>(s: seq<K>, x: K, i: nat, j: nat)
    requires i <= j <= |s|
    ensures x in s[j..] ==> x in s[i..]
  {
    assert s[i..][j - i..] == s[j..];
  }
}
