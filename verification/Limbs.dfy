/**
Little-endian vectors of 32-bit limbs, the representation of src/arith_uint256.h, as numbers: the value of a
vector, and what each limb loop of src/arith_uint256.h and src/arith_uint256.cpp does to it.
*/
module Limbs {
  import opened Common
  import opened Numbers

  const BASE: nat := 0x1_0000_0000

  // ------------------------------------------------------------------ limbs as numbers

  /** The weight of limb i. */
  function Weight(i: nat): (w: nat)
    ensures w >= 1
  {
    Pow2(32 * i)
  }

  lemma WeightZero()
    ensures Weight(0) == 1
  {}

  lemma WeightStep(i: nat)
    ensures Weight(i + 1) == Weight(i) * BASE
  {
    Pow2Is32();
    Pow2Add(32 * i, 32);
  }

  lemma WeightAdd(i: nat, j: nat)
    ensures Weight(i + j) == Weight(i) * Weight(j)
  {
    Pow2Add(32 * i, 32 * j);
  }

  /** The number that a vector of limbs stands for. */
  ghost function Val(s: seq<uint32>): (v: nat) {
    if s == [] then 0 else Val(s[..|s| - 1]) + s[|s| - 1] * Weight(|s| - 1)
  }

  lemma Distribute(a: int, x: int, w: int, v: int)
    ensures (a + x * w) * v == a * v + x * (w * v)
  {}

  /** Adding a limb at the top. */
  lemma ValPush(s: seq<uint32>, x: uint32)
    ensures Val(s + [x]) == Val(s) + x * Weight(|s|)
  {
    hide Weight;
    var t := s + [x];
    assert t[..|t| - 1] == s;
  }

  lemma ValNext(s: seq<uint32>, i: nat)
    requires i < |s|
    ensures Val(s[..i + 1]) == Val(s[..i]) + s[i] * Weight(i)
  {
    assert s[..i + 1] == s[..i] + [s[i]];
    ValPush(s[..i], s[i]);
  }

  /** Every vector stands for a number below its range. */
  lemma {:induction false} ValBound(s: seq<uint32>)
    ensures Val(s) < Weight(|s|)
  {
    hide Weight;
    if s != [] {
      var n := |s| - 1;
      ValBound(s[..n]);
      WeightStep(n);
      MulMono(Weight(n), s[n], BASE - 1);
    }
  }

  /** Low limbs and high limbs. */
  lemma {:induction false} ValSplit(s: seq<uint32>, i: nat)
    requires i <= |s|
    ensures Val(s) == Val(s[..i]) + Val(s[i..]) * Weight(i)
    decreases |s| - i
  {
    hide Weight;
    if i == |s| {
      assert s[..i] == s && s[i..] == [];
    } else {
      var t := s[..|s| - 1];
      ValSplit(t, i);
      assert t[..i] == s[..i] && s[i..] == t[i..] + [s[|s| - 1]];
      ValPush(t[i..], s[|s| - 1]);
      WeightAdd(|t| - i, i);
      Distribute(Val(t[i..]), s[|s| - 1], Weight(|t| - i), Weight(i));
    }
  }

  lemma {:induction false} ValZeros(s: seq<uint32>)
    requires forall i :: 0 <= i < |s| ==> s[i] == 0
    ensures Val(s) == 0
  {
    if s != [] {
      ValZeros(s[..|s| - 1]);
    }
  }

  /** Writing the low half of n and carrying the high half. */
  lemma PutLimb(s: seq<uint32>, n: nat)
    ensures Val(s + [n % BASE]) + n / BASE * Weight(|s| + 1) == Val(s) + n * Weight(|s|)
  {
    hide Val, Weight;
    ValPush(s, n % BASE);
    WeightStep(|s|);
    var w := Weight(|s|);
    assert n == n % BASE + n / BASE * BASE;
    Distribute(n % BASE, n / BASE, BASE, w);
    assert BASE * w == w * BASE;
  }

  /** A vector whose carried-out part is known holds the number modulo its range. */
  lemma Wrapped(s: seq<uint32>, x: int, carry: int)
    requires Val(s) + carry * Weight(|s|) == x
    ensures Val(s) == x % Weight(|s|)
  {
    hide Val, Weight;
    ValBound(s);
    DivModUnique(x, carry, Val(s), Weight(|s|));
  }

  // ------------------------------------------------------------------ addition

  /** The limbs of s and the carry out of them make up the sum of the lower limbs of x and y. */
  ghost predicate Added(s: seq<uint32>, carry: nat, x: seq<uint32>, y: seq<uint32>) {
    |s| <= |x| == |y| && Val(s) + carry * Weight(|s|) == Val(x[..|s|]) + Val(y[..|s|])
  }

  lemma AddStart(x: seq<uint32>, y: seq<uint32>)
    requires |x| == |y|
    ensures Added([], 0, x, y)
  {}

  lemma AddStep(s: seq<uint32>, carry: nat, x: seq<uint32>, y: seq<uint32>)
    requires |s| < |x| && Added(s, carry, x, y)
    ensures
      var n := carry + x[|s|] + y[|s|];
      Added(s + [n % BASE], n / BASE, x, y)
  {
    hide Val, Weight;
    var i := |s|;
    var n := carry + x[i] + y[i];
    PutLimb(s, n);
    ValNext(x, i);
    ValNext(y, i);
    assert n * Weight(i) == carry * Weight(i) + x[i] * Weight(i) + y[i] * Weight(i);
  }

  lemma AddEnd(s: seq<uint32>, carry: nat, x: seq<uint32>, y: seq<uint32>)
    requires |s| == |x| && Added(s, carry, x, y)
    ensures Val(s) == (Val(x) + Val(y)) % Weight(|s|)
  {
    hide Val, Weight;
    assert x[..|s|] == x && y[..|s|] == y;
    Wrapped(s, Val(x) + Val(y), carry);
  }

  /** Adding the negation subtracts. */
  lemma SubtractModulo(x: nat, y: nat, w: nat)
    requires w > 0 && y < w
    ensures (x + (w - y) % w) % w == (x - y) % w
  {
    if y == 0 {
      DivModUnique(w, 1, 0, w);
    } else {
      DivModUnique(w - y, 0, w - y, w);
      var d := x - y;
      assert d == d / w * w + d % w;
      assert (d / w + 1) * w == d / w * w + w;
      DivModUnique(d + w, d / w + 1, d % w, w);
    }
  }

  // ------------------------------------------------------------------ complement, increment, decrement

  /** Complementing every limb counts down from the largest value. */
  lemma {:induction false} ComplementVal(s: seq<uint32>, t: seq<uint32>)
    requires |s| == |t| && forall i :: 0 <= i < |s| ==> t[i] == BASE - 1 - s[i]
    ensures Val(t) == Weight(|s|) - 1 - Val(s)
  {
    hide Weight;
    if s == [] {
      WeightZero();
    } else {
      var n := |s| - 1;
      ComplementVal(s[..n], t[..n]);
      WeightStep(n);
      assert (BASE - 1 - s[n]) * Weight(n) == Weight(n) * BASE - Weight(n) - s[n] * Weight(n);
    }
  }

  ghost function Run(i: nat, x: uint32): (t: seq<uint32>)
    ensures |t| == i && forall k :: 0 <= k < i ==> t[k] == x
  {
    seq(i, _ => x)
  }

  lemma {:induction false} RunOfOnes(i: nat)
    ensures Val(Run(i, BASE - 1)) == Weight(i) - 1
  {
    hide Weight;
    ValZeros(Run(i, 0));
    ComplementVal(Run(i, 0), Run(i, BASE - 1));
  }

  /** Changing only limb i and the limbs below it. */
  lemma RippledVal(s: seq<uint32>, t: seq<uint32>, i: nat)
    requires i < |s| == |t| && s[i + 1..] == t[i + 1..]
    ensures Val(t) - Val(s) == Val(t[..i]) - Val(s[..i]) + (t[i] - s[i]) * Weight(i)
  {
    hide Val, Weight;
    ValSplit(s, i + 1);
    ValSplit(t, i + 1);
    ValNext(s, i);
    ValNext(t, i);
    assert (t[i] - s[i]) * Weight(i) == t[i] * Weight(i) - s[i] * Weight(i);
  }

  /** A carry that runs through i full limbs and stops at limb i. */
  lemma IncrementVal(s: seq<uint32>, t: seq<uint32>, i: nat)
    requires i < |s| == |t| && s[i + 1..] == t[i + 1..] && s[i] < t[i] && t[i] - s[i] == 1
    requires s[..i] == Run(i, BASE - 1) && t[..i] == Run(i, 0)
    ensures Val(t) == Val(s) + 1
  {
    hide Val, Weight;
    RippledVal(s, t, i);
    RunOfOnes(i);
    ValZeros(Run(i, 0));
  }

  // ------------------------------------------------------------------ multiplication

  /** The limbs of s and the carry out of them make up b times the lower limbs of x. */
  ghost predicate Scaled(s: seq<uint32>, carry: nat, x: seq<uint32>, b: nat) {
    |s| <= |x| && Val(s) + carry * Weight(|s|) == b * Val(x[..|s|])
  }

  lemma ScaleStart(x: seq<uint32>, b: nat)
    ensures Scaled([], 0, x, b)
  {}

  lemma ScaleStep(s: seq<uint32>, carry: nat, x: seq<uint32>, b: nat)
    requires |s| < |x| && Scaled(s, carry, x, b)
    ensures
      var n := carry + b * x[|s|];
      Scaled(s + [n % BASE], n / BASE, x, b)
  {
    hide Val, Weight;
    var i := |s|;
    var n := carry + b * x[i];
    PutLimb(s, n);
    ValNext(x, i);
    assert n * Weight(i) == carry * Weight(i) + b * (x[i] * Weight(i)) by {
      Distribute(carry, b, x[i], Weight(i));
    }
    assert b * Val(x[..i + 1]) == b * Val(x[..i]) + b * (x[i] * Weight(i));
  }

  lemma ScaleEnd(s: seq<uint32>, carry: nat, x: seq<uint32>, b: nat)
    requires |s| == |x| && Scaled(s, carry, x, b)
    ensures Val(s) == b * Val(x) % Weight(|s|)
  {
    hide Val, Weight;
    assert x[..|s|] == x;
    Wrapped(s, b * Val(x), carry);
  }

  /** A 64-bit accumulator holds carry + limb + product, and its high half is a limb again. */
  lemma NoOverflow(carry: uint32, a: uint32, x: uint32, y: uint32)
    ensures carry + a + x * y <= MAX64 && (carry + a + x * y) / BASE < BASE
  {
    MulMono(x, y, BASE - 1);
    MulMono(BASE - 1, x, BASE - 1);
  }

  /**
  Row j of the schoolbook product, accumulated on top of x: the lower limbs s and the carry out of them hold
  the lower limbs of x plus p times the lower limbs of y, the latter moved up by j limbs.
  */
  ghost predicate RowAdded(s: seq<uint32>, carry: nat, x: seq<uint32>, p: nat, y: seq<uint32>, j: nat) {
    && j <= |s| <= |x| == |y|
    && Val(s) + carry * Weight(|s|) == Val(x[..|s|]) + p * Val(y[..|s| - j]) * Weight(j)
  }

  lemma RowStart(x: seq<uint32>, p: nat, y: seq<uint32>, j: nat)
    requires j <= |x| == |y|
    ensures RowAdded(x[..j], 0, x, p, y, j)
  {}

  lemma RowStep(s: seq<uint32>, carry: nat, x: seq<uint32>, p: nat, y: seq<uint32>, j: nat)
    requires |s| < |x| && RowAdded(s, carry, x, p, y, j)
    ensures
      var n := carry + x[|s|] + p * y[|s| - j];
      RowAdded(s + [n % BASE], n / BASE, x, p, y, j)
  {
    hide Val, Weight;
    var i, k := |s|, |s| - j;
    var n := carry + x[i] + p * y[k];
    PutLimb(s, n);
    ValNext(x, i);
    ValNext(y, k);
    WeightAdd(k, j);
    RowArithmetic(carry, x[i], p, Val(y[..k]), y[k], Weight(k), Weight(j));
  }

  lemma RowArithmetic(carry: int, a: int, p: int, v: int, y: int, wk: int, wj: int)
    ensures (carry + a + p * y) * (wk * wj) + p * v * wj
         == carry * (wk * wj) + a * (wk * wj) + p * (v + y * wk) * wj
  {
    assert p * (v + y * wk) == p * v + p * y * wk;
    Distribute(p * v, p * y, wk, wj);
  }

  /** A whole row adds p * y * 2^(32 j), up to whole multiples of the range. */
  lemma RowEnd(s: seq<uint32>, carry: nat, x: seq<uint32>, p: nat, y: seq<uint32>, j: nat) returns (q: int)
    requires |s| == |x| && RowAdded(s, carry, x, p, y, j)
    ensures Val(s) + q * Weight(|s|) == Val(x) + p * Weight(j) * Val(y)
  {
    hide Val, Weight;
    var k := |s| - j;
    var high := Val(y[k..]);
    assert x[..|s|] == x;
    ValSplit(y, k);
    WeightAdd(k, j);
    q := carry + p * high;
    RowEndArithmetic(p, Val(y[..k]), high, Weight(k), Weight(j), carry);
  }

  lemma RowEndArithmetic(p: int, low: int, high: int, wk: int, wj: int, carry: int)
    ensures p * wj * (low + high * wk) == p * low * wj + p * high * (wk * wj)
    ensures (carry + p * high) * (wk * wj) == carry * (wk * wj) + p * high * (wk * wj)
  {
    assert p * wj * (low + high * wk) == p * wj * low + p * wj * (high * wk);
    assert p * wj * low == p * low * wj;
    assert p * wj * (high * wk) == p * high * (wk * wj);
  }

  /** acc is, modulo its range, the product of the lower j limbs of x with y. */
  ghost predicate Multiplied(acc: seq<uint32>, x: seq<uint32>, j: nat, y: seq<uint32>, q: int) {
    && |acc| == |x| == |y| && j <= |x|
    && Val(acc) + q * Weight(|acc|) == Val(x[..j]) * Val(y)
  }

  lemma MultiplyStart(acc: seq<uint32>, x: seq<uint32>, y: seq<uint32>)
    requires |acc| == |x| == |y| && Val(acc) == 0
    ensures Multiplied(acc, x, 0, y, 0)
  {
    hide Weight;
  }

  lemma MultiplyStep(acc: seq<uint32>, acc': seq<uint32>, x: seq<uint32>, j: nat, y: seq<uint32>, q: int, d: int)
    requires |acc'| == |acc| && j < |x| && Multiplied(acc, x, j, y, q)
    requires Val(acc') + d * Weight(|acc'|) == Val(acc) + x[j] * Weight(j) * Val(y)
    ensures Multiplied(acc', x, j + 1, y, q + d)
  {
    hide Val, Weight;
    ValNext(x, j);
    assert (Val(x[..j]) + x[j] * Weight(j)) * Val(y) == Val(x[..j]) * Val(y) + x[j] * Weight(j) * Val(y);
    assert (q + d) * Weight(|acc|) == q * Weight(|acc|) + d * Weight(|acc|);
  }

  lemma MultiplyEnd(acc: seq<uint32>, x: seq<uint32>, y: seq<uint32>, q: int)
    requires Multiplied(acc, x, |x|, y, q)
    ensures Val(acc) == Val(x) * Val(y) % Weight(|acc|)
  {
    hide Val, Weight;
    assert x[..|x|] == x;
    Wrapped(acc, Val(x) * Val(y), q);
  }

  // ------------------------------------------------------------------ bits

  /** Bitwise or. */
  function BitOr(x: nat, y: nat): (z: nat)
    decreases x + y
  {
    if x == 0 && y == 0 then 0
    else (if x % 2 == 1 || y % 2 == 1 then 1 else 0) + 2 * BitOr(x / 2, y / 2)
  }

  lemma {:induction false} BitOrZero(y: nat)
    ensures BitOr(0, y) == y
  {
    if y != 0 {
      BitOrZero(y / 2);
    }
  }

  /** Or-ing numbers that share no bit position adds them. */
  lemma {:induction false} BitOrDisjoint(x: nat, y: nat, s: nat)
    requires x < Pow2(s)
    ensures BitOr(x, y * Pow2(s)) == x + y * Pow2(s)
  {
    if s == 0 {
      BitOrZero(y);
    } else {
      var h := y * Pow2(s - 1);
      assert y * Pow2(s) == 2 * h;
      BitOrDisjoint(x / 2, y, s - 1);
      assert 2 * h / 2 == h;
    }
  }

  lemma {:induction false} BitOrSym(x: nat, y: nat)
    ensures BitOr(x, y) == BitOr(y, x)
    decreases x + y
  {
    if x != 0 || y != 0 {
      BitOrSym(x / 2, y / 2);
    }
  }

  /** Or works on the bits below s and the bits above s separately. */
  lemma {:induction false} BitOrSplit(h: nat, g: nat, x: nat, y: nat, s: nat)
    requires x < Pow2(s) && y < Pow2(s)
    ensures BitOr(h * Pow2(s) + x, g * Pow2(s) + y) == BitOr(h, g) * Pow2(s) + BitOr(x, y)
  {
    hide BitOr;
    if s == 0 {
      assert BitOr(0, 0) == 0 by { BitOrZero(0); }
    } else {
      BitOrSplit(h, g, x / 2, y / 2, s - 1);
      BitOrDouble(h, g, x, y, Pow2(s - 1));
    }
  }

  lemma BitOrDouble(h: nat, g: nat, x: nat, y: nat, p: nat)
    requires BitOr(h * p + x / 2, g * p + y / 2) == BitOr(h, g) * p + BitOr(x / 2, y / 2)
    ensures BitOr(h * (2 * p) + x, g * (2 * p) + y) == BitOr(h, g) * (2 * p) + BitOr(x, y)
  {
    hide BitOr;
    BitOrHalf(h * p, x, g * p, y);
    assert h * (2 * p) == 2 * (h * p) && g * (2 * p) == 2 * (g * p);
    assert BitOr(h, g) * (2 * p) == 2 * (BitOr(h, g) * p);
  }

  lemma Pow2Next(n: nat)
    ensures Pow2(n + 1) == 2 * Pow2(n)
  {}

  lemma BitOrHalf(h: nat, x: nat, g: nat, y: nat)
    ensures BitOr(2 * h + x, 2 * g + y) - 2 * BitOr(h + x / 2, g + y / 2) == BitOr(x, y) - 2 * BitOr(x / 2, y / 2)
  {
    assert (2 * h + x) / 2 == h + x / 2 && (2 * g + y) / 2 == g + y / 2;
  }

  lemma {:induction false} BitOrBound(x: nat, y: nat, n: nat)
    requires x < Pow2(n) && y < Pow2(n)
    ensures BitOr(x, y) < Pow2(n)
  {
    if n != 0 && (x != 0 || y != 0) {
      BitOrBound(x / 2, y / 2, n - 1);
    }
  }

  /** The or of two limbs. */
  function Or32(x: uint32, y: uint32): (z: uint32) {
    Pow2Is32();
    BitOrBound(x, y, 32);
    BitOr(x, y)
  }

  /** The limb 1 << n. */
  function Bit32(n: nat): (z: uint32)
    requires n < 32
  {
    Pow2Is32();
    Pow2Mono(n + 1, 32);
    Pow2(n)
  }

  // ------------------------------------------------------------------ shifts

  /** The part of x << s that stays in the limb. */
  function Lo(x: uint32, s: nat): (y: uint32) { x * Pow2(s) % BASE }

  /** The part of x << s that moves into the next limb. */
  function Hi(x: uint32, s: nat): (y: nat) { x * Pow2(s) / BASE }

  /** x >> s. */
  function Down(x: uint32, s: nat): (y: nat) { Div(x, Pow2(s)) }

  /** x >> s as a limb. */
  function Shr32(x: uint32, s: nat): (y: uint32) {
    DownBound(x, s);
    Down(x, s)
  }

  lemma DivideDown(x: nat, p: nat)
    requires p > 0
    ensures x / p <= x
  {
    assert x == x / p * p + x % p;
    MulMono(x / p, 1, p);
  }

  lemma DownBound(x: uint32, s: nat)
    ensures Down(x, s) <= x
  {
    hide Pow2;
    DivideDown(x, Pow2(s));
  }

  lemma Complementary(s: nat)
    requires s <= 32
    ensures Pow2(s) * Pow2(32 - s) == BASE
  {
    Pow2Is32();
    Pow2Add(s, 32 - s);
  }

  lemma SplitProduct(x: nat, p: nat, q: nat)
    requires x < p * q && p > 0 && q > 0
    ensures x * p / (p * q) == x / q < p
    ensures x * p % (p * q) == x % q * p <= p * q - p
  {
    var h, l := x / q, x % q;
    assert x == h * q + l;
    assert (h * q + l) * p == h * (p * q) + l * p;
    MulMono(p, l + 1, q);
    DivModUnique(x * p, h, l * p, p * q);
    if h >= p { MulMono(q, p, h); }
  }

  /** Both halves of a shifted limb, and the right shift by which the program computes the upper one. */
  lemma LoHi(x: uint32, s: nat)
    requires s <= 32
    ensures x * Pow2(s) == Lo(x, s) + Hi(x, s) * BASE
    ensures Hi(x, s) == Down(x, 32 - s) < Pow2(s)
    ensures Lo(x, s) == x % Pow2(32 - s) * Pow2(s) <= BASE - Pow2(s)
  {
    hide Pow2;
    Complementary(s);
    SplitProduct(x, Pow2(s), Pow2(32 - s));
  }

  /** Limb j after the left shift loop has dealt with i limbs of a: k whole limbs and s bits. */
  function ShlPart(a: seq<uint32>, k: nat, s: nat, i: nat, j: nat): (x: nat)
    requires i <= |a| && s < 32
  {
    (if k <= j < k + i then Lo(a[j - k], s) else 0) + (if k < j <= k + i then Hi(a[j - k - 1], s) else 0)
  }

  /** Or-ing the two halves that meet in a limb adds them, without overflow. */
  lemma Join(x: uint32, y: uint32, s: nat)
    requires s <= 32
    ensures BitOr(Hi(y, s), Lo(x, s)) == Hi(y, s) + Lo(x, s) < BASE
  {
    hide Pow2, Lo, Hi, BitOr, Down;
    LoHi(x, s);
    LoHi(y, s);
    BitOrDisjoint(Hi(y, s), x % Pow2(32 - s), s);
  }

  /** The state of the left shift loop after i limbs. */
  ghost predicate ShlDone(t: seq<uint32>, a: seq<uint32>, k: nat, s: nat, i: nat) {
    |t| == |a| && s < 32 && i <= |a| && forall j :: 0 <= j < |t| ==> t[j] == ShlPart(a, k, s, i, j)
  }

  lemma ShlStart(t: seq<uint32>, a: seq<uint32>, k: nat, s: nat)
    requires |t| == |a| && s < 32 && forall j :: 0 <= j < |t| ==> t[j] == 0
    ensures ShlDone(t, a, k, s, 0)
  {}

  lemma ShlStep(t: seq<uint32>, t': seq<uint32>, a: seq<uint32>, k: nat, s: nat, i: nat)
    requires i < |a| && ShlDone(t, a, k, s, i) && |t'| == |t|
    requires i + k + 1 < |a| ==>
      t'[i + k + 1] == if s != 0 then Or32(t[i + k + 1], Shr32(a[i], 32 - s)) else t[i + k + 1]
    requires i + k < |a| ==> t'[i + k] == Or32(t[i + k], Lo(a[i], s))
    requires forall j :: 0 <= j < |a| && j != i + k && j != i + k + 1 ==> t'[j] == t[j]
    ensures ShlDone(t', a, k, s, i + 1)
  {
    hide Lo, Hi, Down, BitOr, Pow2;
    LoHi(a[i], s);
    BitOrZero(Hi(a[i], s));
    NoHigh(a[i]);
    if i > 0 { Join(a[i], a[i - 1], s); } else { BitOrZero(Lo(a[i], s)); }
    forall j | 0 <= j < |a|
      ensures t'[j] == ShlPart(a, k, s, i + 1, j)
    {
      assert t[j] == ShlPart(a, k, s, i, j);
    }
  }

  /** A shift by no bits moves nothing into the next limb. */
  lemma NoHigh(x: uint32)
    ensures Hi(x, 0) == 0 && Lo(x, 32) == 0
  {
    Pow2Is32();
  }

  /** The carry into limb i of the shifted number. */
  ghost function ShlCarry(a: seq<uint32>, s: nat, i: nat): nat
    requires i <= |a|
  {
    if i == 0 then 0 else Hi(a[i - 1], s)
  }

  lemma {:induction false} ShlPrefix(t: seq<uint32>, a: seq<uint32>, k: nat, s: nat, i: nat)
    requires ShlDone(t, a, k, s, |a|) && k + i <= |a|
    ensures Val(t[..k + i]) + ShlCarry(a, s, i) * Weight(k + i) == Val(a[..i]) * Pow2(s) * Weight(k)
  {
    hide Val, Weight, Pow2, Lo, Hi;
    if i == 0 {
      assert a[..0] == [];
      ValZeros(a[..0]);
      ValZeros(t[..k]);
    } else {
      var x, c := a[i - 1], ShlCarry(a, s, i - 1);
      ShlPrefix(t, a, k, s, i - 1);
      LoHi(x, s);
      assert t[k + i - 1] == Lo(x, s) + c;
      ValNext(t, k + i - 1);
      ValNext(a, i - 1);
      WeightStep(k + i - 1);
      WeightAdd(i - 1, k);
      ShlLimb(Val(t[..k + i - 1]), Val(t[..k + i]), Val(a[..i - 1]), Val(a[..i]), Lo(x, s), Hi(x, s), c, x, Pow2(s),
              Weight(i - 1), Weight(k), Weight(k + i));
    }
  }

  lemma ShlLimb(t: int, t': int, v: int, v': int, lo: int, hi: int, c: int, x: int, p: int, w: int, wk: int, next: int)
    requires x * p == lo + hi * BASE && next == w * wk * BASE
    requires t + c * (w * wk) == v * p * wk && t' == t + (lo + c) * (w * wk) && v' == v + x * w
    ensures t' + hi * next == v' * p * wk
  {
    ShlArithmetic(lo, hi, c, x, p, v, w, wk);
  }

  lemma ShlArithmetic(lo: int, hi: int, c: int, x: int, p: int, v: int, w: int, wk: int)
    requires x * p == lo + hi * BASE
    ensures (lo + c) * (w * wk) + hi * (w * wk * BASE) + v * p * wk == c * (w * wk) + (v + x * w) * p * wk
  {
    var z := w * wk;
    assert (lo + c) * z == lo * z + c * z;
    assert hi * (z * BASE) == hi * BASE * z;
    assert lo * z + hi * BASE * z == (x * p) * z;
    assert (v + x * w) * p * wk == v * p * wk + x * w * p * wk;
    assert x * w * p * wk == x * p * z;
  }

  /** The limb-wise left shift multiplies by a power of two, modulo the range. */
  lemma ShlVal(t: seq<uint32>, a: seq<uint32>, shift: nat)
    requires ShlDone(t, a, shift / 32, shift % 32, |a|)
    ensures Val(t) == Val(a) * Pow2(shift) % Weight(|a|)
  {
    hide Val, Weight, Pow2, ShlPart, ShlCarry;
    var k, s, n := shift / 32, shift % 32, |a|;
    assert Pow2(shift) == Pow2(s) * Weight(k) by { ShiftWeight(shift); }
    if k <= n {
      ShlPrefix(t, a, k, s, n - k);
      ValSplit(a, n - k);
      WeightAdd(n - k, k);
      assert t[..n] == t;
      var low, high, c := Val(a[..n - k]), Val(a[n - k..]), ShlCarry(a, s, n - k);
      ShlEndArithmetic(low, high, c, Pow2(s), Weight(n - k), Weight(k));
      Wrapped(t, Val(a) * Pow2(shift), c + high * Pow2(s));
    } else {
      ShlAllOut(t, a, shift);
    }
  }

  lemma ShiftWeight(shift: nat)
    ensures Pow2(shift) == Pow2(shift % 32) * Weight(shift / 32)
  {
    Pow2Add(shift % 32, 32 * (shift / 32));
  }

  lemma ShlEndArithmetic(low: int, high: int, c: int, p: int, wn: int, wk: int)
    ensures low * p * wk - c * (wn * wk) + (c + high * p) * (wn * wk) == (low + high * wn) * (p * wk)
  {
    assert (c + high * p) * (wn * wk) == c * (wn * wk) + high * p * (wn * wk);
    assert (low + high * wn) * (p * wk) == low * (p * wk) + high * wn * (p * wk);
    assert high * wn * (p * wk) == high * p * (wn * wk);
    assert low * (p * wk) == low * p * wk;
  }

  lemma AboveRange(shift: nat, n: nat)
    requires shift >= 32 * n
    ensures Pow2(shift) == Pow2(shift - 32 * n) * Weight(n)
  {
    Pow2Add(shift - 32 * n, 32 * n);
  }

  lemma ShlAllOut(t: seq<uint32>, a: seq<uint32>, shift: nat)
    requires ShlDone(t, a, shift / 32, shift % 32, |a|) && shift / 32 > |a|
    ensures Val(t) == Val(a) * Pow2(shift) % Weight(|a|)
  {
    hide Val, Pow2, Weight, Lo, Hi;
    ValZeros(t);
    var rest, w := Pow2(shift - 32 * |a|), Weight(|a|);
    assert Pow2(shift) == rest * w by { AboveRange(shift, |a|); }
    MulAssoc(Val(a), rest, w);
    Wrapped(t, Val(a) * Pow2(shift), Val(a) * rest);
  }

  /** Limb j after the right shift loop has dealt with i limbs of a: k whole limbs and s bits. */
  function ShrPart(a: seq<uint32>, k: nat, s: nat, i: nat, j: nat): (x: nat)
    requires i <= |a| && s < 32
  {
    (if j + k < i then Down(a[j + k], s) else 0) + (if j + k + 1 < i then Lo(a[j + k + 1], 32 - s) else 0)
  }

  /** The state of the right shift loop after i limbs. */
  ghost predicate ShrDone(t: seq<uint32>, a: seq<uint32>, k: nat, s: nat, i: nat) {
    |t| == |a| && s < 32 && i <= |a| && forall j :: 0 <= j < |t| ==> t[j] == ShrPart(a, k, s, i, j)
  }

  lemma ShrStart(t: seq<uint32>, a: seq<uint32>, k: nat, s: nat)
    requires |t| == |a| && s < 32 && forall j :: 0 <= j < |t| ==> t[j] == 0
    ensures ShrDone(t, a, k, s, 0)
  {}

  lemma ShrStep(t: seq<uint32>, t': seq<uint32>, a: seq<uint32>, k: nat, s: nat, i: nat)
    requires i < |a| && ShrDone(t, a, k, s, i) && |t'| == |t|
    requires i - k - 1 >= 0 ==>
      t'[i - k - 1] == if s != 0 then Or32(t[i - k - 1], Lo(a[i], 32 - s)) else t[i - k - 1]
    requires i - k >= 0 ==> t'[i - k] == Or32(t[i - k], Shr32(a[i], s))
    requires forall j :: 0 <= j < |a| && j != i - k && j != i - k - 1 ==> t'[j] == t[j]
    ensures ShrDone(t', a, k, s, i + 1)
  {
    hide Lo, Down, BitOr, Pow2;
    BitOrZero(Down(a[i], s));
    NoHigh(a[i]);
    if i > 0 { JoinRight(a[i], a[i - 1], s); }
    forall j | 0 <= j < |a|
      ensures t'[j] == ShrPart(a, k, s, i + 1, j)
    {
      assert t[j] == ShrPart(a, k, s, i, j);
    }
  }

  /** Or-ing the two pieces that meet in a limb of a right shift adds them, without overflow. */
  lemma JoinRight(x: uint32, y: uint32, s: nat)
    requires s < 32
    ensures BitOr(Down(y, s), Lo(x, 32 - s)) == Down(y, s) + Lo(x, 32 - s) < BASE
  {
    hide Pow2, Lo, Hi, BitOr, Down;
    LoHi(y, 32 - s);
    Join(x, y, 32 - s);
  }

  /** The bits that limb j loses to the limb below it. */
  ghost function ShrRest(a: seq<uint32>, k: nat, s: nat, j: nat): (r: nat)
    ensures r < Pow2(s)
  {
    if k + j < |a| then a[k + j] % Pow2(s) else 0
  }

  lemma {:induction false} ShrPrefix(t: seq<uint32>, a: seq<uint32>, k: nat, s: nat, j: nat)
    requires ShrDone(t, a, k, s, |a|) && k + j <= |a|
    ensures Pow2(s) * Val(t[..j]) + ShrRest(a, k, s, 0) == Val(a[k..k + j]) + ShrRest(a, k, s, j) * Weight(j)
  {
    hide Val, Weight, Pow2, Lo;
    if j == 0 {
      ValZeros(t[..0]);
      ValZeros(a[k..k]);
      WeightZero();
    } else {
      var y, r := a[k + j - 1], ShrRest(a, k, s, j);
      ShrPrefix(t, a, k, s, j - 1);
      ShrLimb(t, a, k, s, j - 1);
      ValNext(t, j - 1);
      assert a[k..k + j] == a[k..k + (j - 1)] + [y];
      ValPush(a[k..k + (j - 1)], y);
      WeightStep(j - 1);
      ShrArithmetic(Pow2(s), t[j - 1], y, ShrRest(a, k, s, j - 1), r, Weight(j - 1), Val(t[..j - 1]));
    }
  }

  /** One limb of a right shift, multiplied back. */
  lemma ShrLimb(t: seq<uint32>, a: seq<uint32>, k: nat, s: nat, j: nat)
    requires ShrDone(t, a, k, s, |a|) && k + j < |a|
    ensures Pow2(s) * t[j] == a[k + j] - ShrRest(a, k, s, j) + ShrRest(a, k, s, j + 1) * BASE
  {
    hide Pow2, Lo;
    var y, p, q := a[k + j], Pow2(s), Pow2(32 - s);
    Complementary(s);
    var r := ShrRest(a, k, s, j + 1);
    if k + j + 1 < |a| { LoHi(a[k + j + 1], 32 - s); }
    assert t[j] == ShrPart(a, k, s, |a|, j) == y / p + r * q;
    ShrLimbArithmetic(y, p, q, r);
  }

  lemma ShrLimbArithmetic(y: nat, p: nat, q: nat, r: nat)
    requires p > 0
    ensures p * (y / p + r * q) == y - y % p + r * (p * q)
  {
    assert y == p * (y / p) + y % p;
    assert p * (y / p + r * q) == p * (y / p) + p * (r * q);
    assert p * (r * q) == r * (p * q);
  }

  lemma ShrArithmetic(p: int, t: int, y: int, r: int, r': int, w: int, v: int)
    requires p * t == y - r + r' * BASE
    ensures p * (v + t * w) == p * v + y * w - r * w + r' * (w * BASE)
  {
    assert p * (v + t * w) == p * v + p * t * w;
    assert (y - r + r' * BASE) * w == y * w - r * w + r' * BASE * w;
    assert r' * BASE * w == r' * (w * BASE);
  }

  /** The limb-wise right shift divides by a power of two, rounding down. */
  lemma ShrVal(t: seq<uint32>, a: seq<uint32>, shift: nat)
    requires ShrDone(t, a, shift / 32, shift % 32, |a|)
    ensures Val(t) == Val(a) / Pow2(shift)
  {
    hide Val, Weight, Pow2, ShrPart, ShrRest, ShrDone;
    var k, s, n := shift / 32, shift % 32, |a|;
    assert Pow2(shift) == Pow2(s) * Weight(k) by { ShiftWeight(shift); }
    if k <= n {
      var r := ShrRest(a, k, s, 0);
      ShrWhole(t, a, k, s);
      ValSplit(a, k);
      ValBound(a[..k]);
      ShrEndArithmetic(Val(a[..k]), r, Val(t), Pow2(s), Weight(k));
    } else {
      ShrAllOut(t, a, shift);
    }
  }

  lemma ShrTop(t: seq<uint32>, a: seq<uint32>, k: nat, s: nat)
    requires ShrDone(t, a, k, s, |a|) && k <= |a|
    ensures Val(t) == Val(t[..|a| - k])
    ensures ShrRest(a, k, s, |a| - k) == 0
  {
    hide Weight;
    ValSplit(t, |a| - k);
    ValZeros(t[|a| - k..]);
  }

  /** The limbs from k upward, divided with remainder. */
  lemma ShrWhole(t: seq<uint32>, a: seq<uint32>, k: nat, s: nat)
    requires ShrDone(t, a, k, s, |a|) && k <= |a|
    ensures Pow2(s) * Val(t) + ShrRest(a, k, s, 0) == Val(a[k..])
  {
    hide Val, Weight, Pow2, ShrPart, ShrRest;
    ShrTop(t, a, k, s);
    ShrPrefix(t, a, k, s, |a| - k);
    assert a[k..k + (|a| - k)] == a[k..];
  }

  lemma ShrEndArithmetic(low: nat, r: nat, v: nat, p: nat, w: nat)
    requires low < w && r < p
    ensures p * w > 0
    ensures (low + (p * v + r) * w) / (p * w) == v
  {
    var m := low + r * w;
    assert (p * v + r) * w == v * (p * w) + r * w;
    MulMono(w, r + 1, p);
    DivModUnique(v * (p * w) + m, v, m, p * w);
  }

  lemma ShrAllOut(t: seq<uint32>, a: seq<uint32>, shift: nat)
    requires ShrDone(t, a, shift / 32, shift % 32, |a|) && shift / 32 > |a|
    ensures Val(t) == Val(a) / Pow2(shift)
  {
    ValZeros(t);
    ValBound(a);
    Pow2Mono(32 * |a|, shift);
    DivModUnique(Val(a), 0, Val(a), Pow2(shift));
  }

  // ------------------------------------------------------------------ comparison and bit length

  /** The topmost differing limb decides. */
  lemma CompareVal(a: seq<uint32>, b: seq<uint32>, i: nat)
    requires i < |a| == |b| && a[i] < b[i] && forall k :: i < k < |a| ==> a[k] == b[k]
    ensures Val(a) < Val(b)
  {
    hide Val, Weight;
    assert a[i + 1..] == b[i + 1..];
    RippledVal(a, b, i);
    ValBound(a[..i]);
    MulMono(Weight(i), 1, b[i] - a[i]);
  }

  /** The topmost bit of the topmost nonzero limb. */
  lemma TopBit(s: seq<uint32>, i: nat, n: nat)
    requires i < |s| && (forall k :: i < k < |s| ==> s[k] == 0) && Pow2(n) <= s[i] < Pow2(n + 1)
    ensures Pow2(32 * i + n) <= Val(s) < Pow2(32 * i + n + 1)
  {
    hide Val, Pow2, Weight;
    ValSplit(s, i + 1);
    ValZeros(s[i + 1..]);
    ValNext(s, i);
    ValBound(s[..i]);
    BitWeight(i, n);
    BitWeight(i, n + 1);
    MulMono(Weight(i), Pow2(n), s[i]);
    var x: nat := s[i];
    MulMono(Weight(i), x + 1, Pow2(n + 1));
  }

  lemma BitWeight(i: nat, n: nat)
    ensures Pow2(32 * i + n) == Weight(i) * Pow2(n)
  {
    Pow2Add(32 * i, n);
  }

  /** Testing one bit from the top. */
  lemma BitClear(x: nat, n: nat)
    requires x < Pow2(n + 1)
    ensures x / Pow2(n) % 2 == 1 <==> Pow2(n) <= x
  {
    var p := Pow2(n);
    if p <= x {
      DivModUnique(x, 1, x - p, p);
    } else {
      DivModUnique(x, 0, x, p);
    }
  }

  /** n is the position of the highest set bit of v, counted from one; zero for zero. */
  ghost predicate BitLength(v: nat, n: nat) {
    if v == 0 then n == 0 else n > 0 && Pow2(n - 1) <= v < Pow2(n)
  }

  lemma BitLengthFrom(v: nat, n: nat)
    requires n > 0 && Pow2(n - 1) <= v < Pow2(n)
    ensures BitLength(v, n)
  {}

  lemma BitLengthZero()
    ensures BitLength(0, 0)
  {}

  // ------------------------------------------------------------------ division

  /** A zero divisor has no bits, and a longer divisor goes in zero times. */
  lemma BitLengthCases(n: nat, d: nat, nbits: nat, dbits: nat)
    requires BitLength(n, nbits) && BitLength(d, dbits)
    ensures dbits == 0 <==> d == 0
    ensures d > 0 && dbits > nbits ==> n / d == 0
  {
    if d > 0 && dbits > nbits {
      Pow2Mono(nbits, dbits - 1);
      DivModUnique(n, 0, n, d);
    }
  }

  /** A number of at most 32 * width bits fits the width. */
  lemma NoShiftLoss(v: nat, bits: nat, width: nat)
    requires v < Pow2(bits) && bits <= 32 * width
    ensures v % Weight(width) == v
  {
    Pow2Mono(bits, 32 * width);
    DivModUnique(v, 0, v, Weight(width));
  }

  lemma QuotientClear(n: nat, d: nat, q: nat, rest: nat, shift: nat)
    requires Dividing(n, d, q, rest, shift + 1)
    ensures q % Pow2(shift + 1) == 0
  {}

  /**
  What the shift-subtract loop keeps, before it tries bit shift - 1: the quotient so far has only bits from
  shift upward, and the remainder is smaller than the divisor moved up by shift.
  */
  ghost predicate Dividing(n: nat, d: nat, q: nat, rest: nat, shift: nat) {
    && n == q * d + rest
    && rest < d * Pow2(shift)
    && q % Pow2(shift) == 0
  }

  lemma DivideStart(n: nat, d: nat, nbits: nat, dbits: nat)
    requires d > 0 && BitLength(n, nbits) && BitLength(d, dbits) && dbits <= nbits
    ensures Dividing(n, d, 0, n, nbits - dbits + 1)
    ensures d * Pow2(nbits - dbits) < Pow2(nbits)
  {
    hide Pow2;
    var s := nbits - dbits;
    Pow2Add(dbits - 1, s + 1);
    Pow2Add(dbits, s);
    MulMono(Pow2(s + 1), Pow2(dbits - 1), d);
    MulMono(Pow2(s), d + 1, Pow2(dbits));
    DivModUnique(0, 0, 0, Pow2(s + 1));
  }

  lemma DivideStep(n: nat, d: nat, q: nat, rest: nat, shift: nat)
    requires Dividing(n, d, q, rest, shift + 1)
    ensures rest < d * Pow2(shift) ==> Dividing(n, d, q, rest, shift)
    ensures rest >= d * Pow2(shift) ==> Dividing(n, d, q + Pow2(shift), rest - d * Pow2(shift), shift)
  {
    hide Pow2;
    var p := Pow2(shift);
    Pow2Next(shift);
    EvenMultiple(q, p);
    assert d * (2 * p) == 2 * (d * p);
    assert (q + p) * d == q * d + d * p;
  }

  lemma EvenMultiple(q: nat, p: nat)
    requires p > 0 && q % (2 * p) == 0
    ensures q % p == 0 && (q + p) % p == 0
  {
    var m := q / (2 * p);
    assert q == m * (2 * p) == 2 * m * p;
    DivModUnique(q, 2 * m, 0, p);
    DivModUnique(q + p, 2 * m + 1, 0, p);
  }

  lemma DivideEnd(n: nat, d: nat, q: nat, rest: nat)
    requires d > 0 && Dividing(n, d, q, rest, 0)
    ensures q == n / d && rest == n % d
  {
    DivModUnique(n, q, rest, d);
  }

  /** Halving the divisor moves it down by one. */
  lemma Halve(d: nat, shift: nat)
    requires shift > 0
    ensures d * Pow2(shift) / Pow2(1) == d * Pow2(shift - 1)
  {
    assert Pow2(1) == 2 * Pow2(0) == 2;
    assert Pow2(shift) == 2 * Pow2(shift - 1);
    MulAssoc(d, 2, Pow2(shift - 1));
    MulAssoc(2, d, Pow2(shift - 1));
  }

  /** If all bits of the vector up to bit s are clear, so are the bits of limb s / 32 up to bit s % 32. */
  lemma LimbClear(a: seq<uint32>, s: nat)
    requires s / 32 < |a| && Val(a) % Pow2(s + 1) == 0
    ensures a[s / 32] % Pow2(s % 32 + 1) == 0
  {
    hide Val, Pow2, Weight;
    var i, t := s / 32, s % 32;
    BitWeight(i, t + 1);
    Complementary(t + 1);
    ValSplit(a, i);
    ValBound(a[..i]);
    ValSplitLow(a[i..]);
    var p, w := Pow2(t + 1), Weight(i);
    ClearArithmetic(Val(a[..i]), a[i], Val(a[i..][1..]), w, p, Pow2(31 - t));
  }

  lemma ValSplitLow(s: seq<uint32>)
    requires s != []
    ensures Val(s) == s[0] + Val(s[1..]) * BASE
  {
    hide Val, Weight;
    ValSplit(s, 1);
    assert s[..1] == [] + [s[0]];
    ValPush([], s[0]);
    ValZeros([]);
    WeightZero();
    WeightStep(0);
  }

  lemma ClearArithmetic(low: nat, x: nat, high: nat, w: nat, p: nat, r: nat)
    requires low < w && p > 0 && p * r == BASE
    requires w * p > 0 && (low + (x + high * BASE) * w) % (w * p) == 0
    ensures x % p == 0
  {
    var v := low + (x + high * BASE) * w;
    var m := v / (w * p);
    assert v == m * p * w;
    DivModUnique(v, m * p, 0, w);
    DivModUnique(v, x + high * BASE, low, w);
    MulAssoc(high, r, p);
    assert x == (m - high * r) * p;
    DivModUnique(x, m - high * r, 0, p);
  }

  /** Setting a bit in a vector whose lower bits and that bit are clear adds its weight. */
  lemma BitSetVal(a: seq<uint32>, b: seq<uint32>, s: nat)
    requires s / 32 < |a| && Val(a) % Pow2(s + 1) == 0
    requires b == a[s / 32 := Or32(a[s / 32], Bit32(s % 32))]
    ensures Val(b) == Val(a) + Pow2(s)
  {
    hide Val, Pow2, Weight, BitOr;
    var i, t := s / 32, s % 32;
    var p := Pow2(t + 1);
    LimbClear(a, s);
    var m := a[i] / p;
    assert a[i] == m * p;
    Pow2Next(t);
    BitOrDisjoint(Pow2(t), m, t + 1);
    BitOrSym(a[i], Pow2(t));
    assert b[..i] == a[..i] && b[i + 1..] == a[i + 1..];
    RippledVal(a, b, i);
    BitWeight(i, t);
  }

  // ------------------------------------------------------------------ 64-bit values

  lemma TwoLimbs(s: seq<uint32>)
    requires |s| >= 2 && forall i :: 2 <= i < |s| ==> s[i] == 0
    ensures Val(s) == s[0] + s[1] * BASE
  {
    hide Val, Weight;
    ValSplitLow(s);
    ValSplitLow(s[1..]);
    ValZeros(s[1..][1..]);
  }

  lemma LowLimbs(s: seq<uint32>)
    requires |s| >= 2
    ensures Val(s) % (MAX64 + 1) == s[0] + s[1] * BASE
  {
    hide Val, Weight;
    ValSplitLow(s);
    ValSplitLow(s[1..]);
    LowOf(Val(s), s[0], s[1], Val(s[1..][1..]));
  }

  lemma LowOf(v: nat, a: uint32, b: uint32, r: nat)
    requires v == a + (b + r * BASE) * BASE
    ensures v % (MAX64 + 1) == a + b * BASE
  {
    DivModUnique(v, r, a + b * BASE, MAX64 + 1);
  }

  lemma AboveTwoLimbs(s: seq<uint32>, i: nat)
    requires 2 <= i < |s| && s[i] != 0
    ensures Val(s) > MAX64
  {
    hide Val, Weight;
    ValSplitLow(s);
    ValSplitLow(s[1..]);
    NonZero(s[1..][1..], i - 2);
  }

  lemma NonZero(s: seq<uint32>, i: nat)
    requires i < |s| && s[i] != 0
    ensures Val(s) > 0
  {
    hide Val, Weight;
    ValSplit(s, i);
    ValSplitLow(s[i..]);
    MulMono(Weight(i), 1, Val(s[i..]));
  }
}
