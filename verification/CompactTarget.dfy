/**
Compact targets (arith_uint256::SetCompact and GetCompact, src/arith_uint256.cpp:203-244) and the work a
target stands for (GetBlockProof, src/chain.cpp:122-135).
*/
module CompactTarget {
  import opened Common
  import opened Numbers
  import opened Limbs
  import opened ArithUint

  const WIDTH: nat := 8

  /** 2^256. */
  ghost function Range(): (r: nat) { Weight(WIDTH) }

  // ------------------------------------------------------------------ the encoding

  function Exponent(compact: uint32): (e: nat)
    ensures e < 256
  {
    compact / 0x100_0000
  }

  function Mantissa(compact: uint32): (m: nat)
    ensures m < 0x80_0000
  {
    compact % 0x80_0000
  }

  predicate SignBit(compact: uint32) { compact / 0x80_0000 % 2 == 1 }

  /** The magnitude mantissa * 256^(exponent - 3), rounded down, that a compact word denotes. */
  ghost function Magnitude(compact: uint32): (v: nat) {
    var e, m := Exponent(compact), Mantissa(compact);
    if e <= 3 then m / Pow2(8 * (3 - e)) else m * Pow2(8 * (e - 3))
  }

  /** v has exactly n bytes. */
  ghost predicate ByteLength(v: nat, n: nat) {
    if v == 0 then n == 0 else n > 0 && Pow2(8 * (n - 1)) <= v < Pow2(8 * n)
  }

  // ------------------------------------------------------------------ decoding

  /** The three tests of SetCompact for a shifted mantissa, given that it is not zero. */
  predicate TooLarge(size: nat, word: nat) {
    word != 0 && (size > 34 || (word > 0xff && size > 33) || (word > 0xffff && size > 32))
  }

  /** The tests hold exactly when the shifted mantissa reaches 2^256. */
  lemma TooLargeExact(size: nat, word: nat)
    requires size > 3 && word < 0x80_0000
    ensures TooLarge(size, word) <==> word * Pow2(8 * (size - 3)) >= Range()
  {
    hide Pow2;
    var p := Pow2(8 * (size - 3));
    if size >= 35 {
      AtLeast(8 * (size - 3), 256);
      if word > 0 { MulMono(p, 1, word); }
    } else if size == 34 {
      Powers(248, 8);
      if word > 255 { MulMono(p, 256, word); } else { MulMono(p, word, 255); }
    } else if size == 33 {
      Powers(240, 16);
      if word > 65535 { MulMono(p, 65536, word); } else { MulMono(p, word, 65535); }
    } else {
      Powers(232, 24);
      AtMost(8 * (size - 3), 232);
      MulMono(p, word, 0xFF_FFFF);
    }
  }

  lemma Powers(a: nat, b: nat)
    requires a + b == 256 && b in {8, 16, 24}
    ensures Pow2(a) * Pow2(b) == Range()
    ensures Pow2(8) == 0x100 && Pow2(16) == 0x1_0000 && Pow2(24) == 0x100_0000
  {
    Pow2Is32();
    Pow2Add(a, b);
  }

  lemma AtLeast(n: nat, m: nat)
    requires n >= m == 256
    ensures Pow2(n) >= Range()
  {
    Pow2Mono(m, n);
  }

  lemma AtMost(n: nat, m: nat)
    requires n <= m
    ensures Pow2(n) <= Pow2(m)
  {
    Pow2Mono(n, m);
  }

  /** SetCompact: the low 256 bits of the magnitude; overflow says exactly whether anything is lost. */
  method SetCompact(x: BaseUint, compact: uint32) returns (negative: bool, overflow: bool)
    requires x.pn.Length == WIDTH
    modifies x.pn
    ensures x.Value() == Magnitude(compact) % Range()
    ensures overflow <==> Magnitude(compact) >= Range()
    ensures !overflow ==> x.Value() == Magnitude(compact)
    ensures negative <==> SignBit(compact) && Magnitude(compact) != 0
  {
    hide Pow2, Weight;
    var size := Exponent(compact);
    var word := Mantissa(compact);
    RangeLarge();
    if size <= 3 {
      word := word / Pow2(8 * (3 - size));
      DivideDown(Mantissa(compact), Pow2(8 * (3 - size)));
      x.SetU64(word);
      DivModUnique(word, 0, word, Range());
    } else {
      x.SetU64(word);
      x.ShlAssign(8 * (size - 3));
      TooLargeExact(size, word);
      ProductZero(word, Pow2(8 * (size - 3)));
      if word * Pow2(8 * (size - 3)) < Range() {
        DivModUnique(Magnitude(compact), 0, Magnitude(compact), Range());
      }
    }
    negative := word != 0 && compact / 0x80_0000 % 2 == 1;
    overflow := TooLarge(size, word);
  }

  lemma ProductZero(x: nat, p: nat)
    requires p > 0
    ensures x * p == 0 <==> x == 0
  {
    if x > 0 { MulMono(p, 1, x); }
  }

  lemma RangeLarge()
    ensures Range() > 0x100_0000
  {
    Pow2Is32();
    Pow2Mono(32, 256);
  }

  // ------------------------------------------------------------------ encoding

  /** v << n. */
  function Raised(v: nat, n: nat): (w: nat) { v * Pow2(n) }

  /** The mantissa GetCompact computes before it looks at the sign bit. */
  ghost function RawMantissa(v: nat, size: nat): (m: nat) {
    if size <= 3 then Raised(v, 8 * (3 - size)) else Div(v, Pow2(8 * (size - 3)))
  }

  /** The number of bytes of v. */
  ghost function ByteSize(v: nat): (n: nat) {
    if v == 0 then 0 else 1 + ByteSize(v / 256)
  }

  /** What GetCompact makes of v: a mantissa that would look negative gives up one more byte. */
  ghost function Compact(v: nat): (c: nat) {
    var n := ByteSize(v);
    var m := RawMantissa(v, n);
    if m >= 0x80_0000 then (n + 1) * 0x100_0000 + m / 256 else n * 0x100_0000 + m
  }

  lemma {:induction false} ByteSizeIs(v: nat)
    ensures ByteLength(v, ByteSize(v))
  {
    if v != 0 {
      var u, n := v / 256, ByteSize(v / 256);
      ByteSizeIs(u);
      NextByte(n);
      if u != 0 { NextByte(n - 1); }
    }
  }

  lemma NextByte(n: nat)
    ensures Pow2(8 * (n + 1)) == 256 * Pow2(8 * n)
  {
    Pow2Is32();
    Pow2Add(8, 8 * n);
  }

  lemma Byte0()
    ensures Pow2(8 * 0) == 1
  {}

  lemma ByteLengthUnique(v: nat, n: nat, m: nat)
    requires ByteLength(v, n) && ByteLength(v, m)
    ensures n == m
  {
    hide Pow2;
    if n < m { AtMost(8 * n, 8 * (m - 1)); }
    if m < n { AtMost(8 * m, 8 * (n - 1)); }
  }

  lemma SizeIs(v: nat, n: nat)
    requires ByteLength(v, n)
    ensures ByteSize(v) == n
  {
    hide ByteLength;
    ByteSizeIs(v);
    ByteLengthUnique(v, n, ByteSize(v));
  }

  /** The scale of a mantissa: the bytes below the three that are kept. */
  lemma Scale(n: nat)
    requires n >= 3
    ensures Pow2(8 * n) == 0x100_0000 * Pow2(8 * (n - 3))
    ensures Pow2(8 * (n - 1)) == 0x1_0000 * Pow2(8 * (n - 3))
  {
    hide Pow2;
    assert Pow2(16) == 0x1_0000 && Pow2(24) == 0x100_0000 by { Pow2Is32(); }
    Pow2Add(24, 8 * (n - 3));
    Pow2Add(16, 8 * (n - 3));
  }

  lemma SmallScale(n: nat)
    requires 1 <= n < 3
    ensures Pow2(8 * n) * Pow2(8 * (3 - n)) == 0x100_0000
    ensures Pow2(8 * (n - 1)) * Pow2(8 * (3 - n)) == 0x1_0000
  {
    Pow2Is32();
    Byte0();
    if n == 1 {
      assert Pow2(8 * n) == 0x100 && Pow2(8 * (3 - n)) == 0x1_0000;
    } else {
      assert Pow2(8 * n) == 0x1_0000 && Pow2(8 * (3 - n)) == 0x100;
    }
  }

  lemma DivideBounds(v: nat, k: nat, lo: nat, hi: nat)
    requires k > 0 && lo * k <= v < hi * k
    ensures lo <= v / k < hi
  {
    var q := v / k;
    assert v == q * k + v % k;
    if q < lo { MulMono(k, q + 1, lo); }
    if q >= hi { MulMono(k, hi, q); }
  }

  /** The three leading bytes of a nonzero number. */
  lemma RawBounds(v: nat, n: nat)
    requires v > 0 && ByteLength(v, n)
    ensures 0x1_0000 <= RawMantissa(v, n) < 0x100_0000
  {
    hide Pow2;
    if n >= 3 {
      Scale(n);
      var k := Pow2(8 * (n - 3));
      DivideBounds(v, k, 0x1_0000, 0x100_0000);
      if n == 3 { Byte0(); }
    } else {
      SmallScale(n);
      var k := Pow2(8 * (3 - n));
      MulMono(k, Pow2(8 * (n - 1)), v);
      MulMono(k, v + 1, Pow2(8 * n));
    }
  }

  /** Dropping one more byte from the mantissa is taking the mantissa at the next size. */
  lemma NextRaw(v: nat, n: nat)
    ensures RawMantissa(v, n) / 256 == RawMantissa(v, n + 1)
  {
    hide Pow2;
    if n >= 3 {
      var k := Pow2(8 * (n - 3));
      NextByte(n - 3);
      DivideTwice(v, k, 256);
      if n == 3 { Byte0(); }
    } else {
      var k := Pow2(8 * (2 - n));
      NextByte(2 - n);
      assert v * (256 * k) == v * k * 256;
      if n == 2 { Byte0(); }
    }
  }

  lemma DivideTwice(v: nat, k: nat, b: nat)
    requires k > 0 && b > 0
    ensures b * k > 0 && v / k / b == v / (b * k)
  {
    var q := v / k;
    var p := q / b;
    assert v == q * k + v % k;
    assert q == p * b + q % b;
    assert v == p * (b * k) + (q % b * k + v % k) by {
      assert (p * b + q % b) * k == p * (b * k) + q % b * k;
    }
    MulMono(k, q % b + 1, b);
    DivModUnique(v, p, q % b * k + v % k, b * k);
  }

  /** The fields of an encoding: a mantissa of two or three significant bytes, and no sign. */
  lemma CompactFields(v: nat)
    requires v < Range()
    ensures Compact(v) < BASE
    ensures !SignBit(Compact(v))
    ensures
      var e, n := Exponent(Compact(v)), ByteSize(v);
      && Mantissa(Compact(v)) == RawMantissa(v, e)
      && Compact(v) == e * 0x100_0000 + RawMantissa(v, e)
      && e <= 33
      && (v > 0 ==> 0x8000 <= RawMantissa(v, e))
      && (v == 0 ==> Compact(v) == 0)
  {
    hide Pow2, RawMantissa;
    var n := ByteSize(v);
    ByteSizeIs(v);
    NextRaw(v, n);
    if v > 0 {
      RawBounds(v, n);
      if n > 32 { AtLeast(8 * (n - 1), 256); }
    } else {
      RawZero();
    }
  }

  lemma RawZero()
    ensures RawMantissa(0, 0) == 0
  {}

  /** Decoding what was encoded clears low bytes and nothing else. */
  lemma Decoded(v: nat)
    requires v < Range()
    ensures Compact(v) < BASE
    ensures
      var e, r := Exponent(Compact(v)), Magnitude(Compact(v));
      r == if e <= 3 then v else v - v % Pow2(8 * (e - 3))
  {
    hide Pow2, Compact;
    CompactFields(v);
    var e := Exponent(Compact(v));
    if e <= 3 {
      var k := Pow2(8 * (3 - e));
      DivModUnique(v * k, v, 0, k);
    } else {
      var k := Pow2(8 * (e - 3));
      assert v == v / k * k + v % k;
    }
  }

  /**
  Compact targets as an approximation: decoding an encoded 256-bit number neither overflows nor turns
  negative, only clears low bytes, loses less than one part in 2^15 of the result, and encodes to the same word
  again.
  */
  lemma RoundTrip(v: nat)
    requires v < Range()
    ensures Compact(v) < BASE
    ensures
      var r := Magnitude(Compact(v));
      && r == (if Exponent(Compact(v)) <= 3 then v else v - v % Pow2(8 * (Exponent(Compact(v)) - 3)))
      && r <= v < Range()
      && (v > 0 ==> (v - r) * 0x8000 < r)
      && !SignBit(Compact(v))
      && Compact(r) == Compact(v)
  {
    hide Pow2, Compact, RawMantissa;
    CompactFields(v);
    Decoded(v);
    var e, r := Exponent(Compact(v)), Magnitude(Compact(v));
    if e > 3 {
      var k, m := Pow2(8 * (e - 3)), RawMantissa(v, e);
      assert v % k < k;
      if v == 0 {
        assert false;
      }
      MulMono(k, 0x8000, m);
      Reencoded(m, e);
    }
  }

  /** A mantissa of two or three bytes, moved up, is encoded as itself. */
  lemma Reencoded(m: nat, e: nat)
    requires 0x8000 <= m < 0x80_0000 && e > 3
    ensures Compact(m * Pow2(8 * (e - 3))) == e * 0x100_0000 + m
  {
    hide Pow2, ByteSize, RawMantissa;
    if m >= 0x1_0000 {
      ThreeBytes(m, e);
    } else {
      TwoBytes(m, e);
    }
  }

  lemma ThreeBytes(m: nat, e: nat)
    requires 0x1_0000 <= m < 0x80_0000 && e > 3
    ensures var r := m * Pow2(8 * (e - 3)); ByteSize(r) == e && RawMantissa(r, e) == m
  {
    hide Pow2, ByteSize;
    var k := Pow2(8 * (e - 3));
    Scale(e);
    MulMono(k, 0x1_0000, m);
    MulMono(k, m + 1, 0x100_0000);
    SizeIs(m * k, e);
    DivModUnique(m * k, m, 0, k);
  }

  lemma TwoBytes(m: nat, e: nat)
    requires 0x8000 <= m < 0x1_0000 && e > 3
    ensures var r := m * Pow2(8 * (e - 3)); ByteSize(r) == e - 1 && RawMantissa(r, e - 1) == m * 256
  {
    hide Pow2, ByteSize;
    var k, h := Pow2(8 * (e - 3)), Pow2(8 * (e - 4));
    Scale(e - 1);
    NextByte(e - 4);
    MulAssoc(m, 256, h);
    MulMono(h, 0x80_0000, m * 256);
    MulMono(h, m * 256 + 1, 0x100_0000);
    SizeIs(m * k, e - 1);
    DivModUnique(m * k, m * 256, 0, h);
    if e == 4 { Byte0(); }
  }

  /** Shifts a copy down and takes its low limb. */
  method LowAfterShift(x: BaseUint, shift: nat) returns (m: nat)
    requires x.pn.Length >= 2
    ensures m == x.Value() / Pow2(shift) % BASE
  {
    hide Pow2, Weight, Val;
    var bn := new BaseUint.Copy(x);
    bn.ShrAssign(shift);
    m := bn.GetLow64();
    LowOfLow(bn.Value());
    m := m % BASE;
  }

  lemma LowOfLow(v: nat)
    ensures v % (MAX64 + 1) % BASE == v % BASE
  {}

  /** The first half of GetCompact: the size in bytes and the three leading bytes. */
  method LeadingBytes(x: BaseUint) returns (m: nat, size: nat)
    requires x.pn.Length == WIDTH
    ensures size == ByteSize(x.Value())
    ensures m == RawMantissa(x.Value(), size) < 0x100_0000
  {
    hide Pow2, Weight, Val, RawMantissa, ByteSize, Raised;
    ghost var v := x.Value();
    var bits := x.Bits();
    size := (bits + 7) / 8;
    BitsToBytes(v, bits);
    if size <= 3 {
      m := x.GetLow64();
      SmallRaw(v, size);
      m := Raised(m, 8 * (3 - size)) % (MAX64 + 1) % BASE;
    } else {
      LargeRaw(v, size);
      m := LowAfterShift(x, 8 * (size - 3));
    }
  }

  /** GetCompact: the encoding of the value, with the sign bit if asked for and the mantissa is not zero. */
  method GetCompact(x: BaseUint, negative: bool) returns (c: uint32)
    requires x.pn.Length == WIDTH
    ensures Compact(x.Value()) < BASE
    ensures var plain := Compact(x.Value());
      c == if negative && Mantissa(plain) != 0 then plain + 0x80_0000 else plain
  {
    hide Pow2, Weight, BitOr, Val, RawMantissa, ByteSize;
    ValBound(x.pn[..]);
    CompactFields(x.Value());
    var m, size := LeadingBytes(x);
    if m / 0x80_0000 % 2 == 1 {
      m := m / 256;
      size := size + 1;
    }
    assert m < 0x80_0000;
    assert size < 256;
    PutSize(m, size);
    c := Or32(m, size * 0x100_0000);
    var sign := if negative && c % 0x80_0000 != 0 then 0x80_0000 else 0;
    PutSign(m, size, sign);
    c := Or32(c, sign);
  }

  lemma BitsToBytes(v: nat, bits: nat)
    requires BitLength(v, bits)
    ensures ByteSize(v) == (bits + 7) / 8
  {
    hide ByteSize, Pow2;
    var n := (bits + 7) / 8;
    if v != 0 {
      AtMost(8 * (n - 1), bits - 1);
      AtMost(bits, 8 * n);
    }
    SizeIs(v, n);
  }

  lemma SmallRaw(v: nat, size: nat)
    requires size <= 3 && size == ByteSize(v)
    ensures v <= MAX64 && v % (MAX64 + 1) == v
    ensures RawMantissa(v, size) == Raised(v, 8 * (3 - size)) < 0x100_0000
  {
    hide Pow2, ByteSize;
    ByteSizeIs(v);
    if v > 0 {
      RawBounds(v, size);
      ProductAtLeast(v, Pow2(8 * (3 - size)));
    }
  }

  lemma ProductAtLeast(v: nat, p: nat)
    requires p > 0
    ensures v <= v * p
  {
    MulMono(v, 1, p);
  }

  lemma LargeRaw(v: nat, size: nat)
    requires size > 3 && size == ByteSize(v)
    ensures RawMantissa(v, size) == v / Pow2(8 * (size - 3)) < 0x100_0000
  {
    hide Pow2, ByteSize;
    ByteSizeIs(v);
    RawBounds(v, size);
  }

  lemma PutSize(m: nat, size: nat)
    requires m < 0x80_0000 && size < 256
    ensures BitOr(m, size * 0x100_0000) == size * 0x100_0000 + m
  {
    Pow2Is32();
    BitOrDisjoint(m, size, 24);
  }

  lemma PutSign(m: nat, size: nat, sign: nat)
    requires m < 0x80_0000 && size < 256 && sign in {0, 0x80_0000}
    ensures BitOr(size * 0x100_0000 + m, sign) == size * 0x100_0000 + m + sign
  {
    hide BitOr;
    Pow2Is32();
    Pow2Add(23, 1);
    BitOrSplit(size, 0, m, sign, 24);
    BitOrSym(size, 0);
    BitOrZero(size);
    BitOrDisjoint(m, sign / 0x80_0000, 23);
  }

  /** The sign does not take part in the magnitude. */
  lemma SignIgnored(c: uint32)
    requires !SignBit(c)
    ensures c + 0x80_0000 < BASE && SignBit(c + 0x80_0000)
    ensures Magnitude(c + 0x80_0000) == Magnitude(c)
  {
    hide Pow2;
    assert Exponent(c + 0x80_0000) == Exponent(c) && Mantissa(c + 0x80_0000) == Mantissa(c);
  }

  // ------------------------------------------------------------------ block proof

  /** A target is never the largest 256-bit number, so adding one to it does not wrap around. */
  lemma TargetBelowMax(compact: uint32)
    requires Magnitude(compact) < Range()
    ensures Magnitude(compact) + 1 < Range()
  {
    hide Pow2, Weight;
    var e, m := Exponent(compact), Mantissa(compact);
    RangeLarge();
    if e <= 3 {
      DivideDown(m, Pow2(8 * (3 - e)));
    } else {
      var h := Pow2(8 * (e - 3) - 1);
      Pow2Next(8 * (e - 3) - 1);
      assert m * (2 * h) == 2 * (m * h);
      RangeEven();
    }
  }

  lemma RangeEven()
    ensures Range() % 2 == 0
  {
    Pow2Next(255);
  }

  /** The division that stands in for 2^256 / (t + 1), whose dividend does not fit. */
  lemma ProofTrick(w: nat, t: nat)
    requires t + 1 < w
    ensures (w - 1 - t) / (t + 1) + 1 == w / (t + 1)
    ensures t > 0 ==> w / (t + 1) < w
  {
    var d := t + 1;
    var q, r := w / d, w % d;
    assert w == q * d + r;
    assert (q - 1) * d == q * d - d;
    DivModUnique(w - d, q - 1, r, d);
    DivideDown(w, d);
    if q == w && t > 0 { MulMono(w, 2, d); }
  }

  /** The work of a block: the expected number of hashes, 2^256 / (target + 1), and none for a bad target. */
  method GetBlockProof(nBits: uint32) returns (work: BaseUint)
    ensures fresh(work) && fresh(work.pn) && work.pn.Length == WIDTH
    ensures
      var target := Magnitude(nBits);
      work.Value() ==
        if SignBit(nBits) || target == 0 || target >= Range() then 0 else Range() / (target + 1)
  {
    hide Pow2, Weight, Magnitude, Val;
    var bnTarget := new BaseUint(WIDTH);
    var negative, overflow := SetCompact(bnTarget, nBits);
    var zero := bnTarget.EqualTo(0);
    if negative || overflow || zero {
      work := new BaseUint(WIDTH);
      return;
    }
    ghost var t, w := bnTarget.Value(), Range();
    TargetBelowMax(nBits);
    ProofTrick(w, t);
    var one := new BaseUint(WIDTH);
    one.SetU64(1);
    work := bnTarget.Complement();
    var next := new BaseUint.Copy(bnTarget);
    next.AddAssign(one);
    DivModUnique(t + 1, 0, t + 1, w);
    var ok := work.DivAssign(next);
    assert ok;
    work.AddAssign(one);
    DivModUnique(w / (t + 1), 0, w / (t + 1), w);
  }
}
