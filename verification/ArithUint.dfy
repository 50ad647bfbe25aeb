/**
The fixed-width unsigned integers of src/arith_uint256.h and src/arith_uint256.cpp, updated in place limb by
limb.  The width is a parameter; arith_uint256 has eight limbs.  Every operation is proved against the integers
modulo 2^(32 * width), and no 64-bit intermediate value overflows.  An operand may be the receiver itself.
*/
module ArithUint {
  import opened Common
  import opened Numbers
  import opened Limbs

  class BaseUint {
    const pn: array<uint32>

    ghost function Value(): (v: nat)
      reads pn
    {
      Val(pn[..])
    }

    /** The default constructor: all limbs zero. */
    constructor (width: nat)
      ensures fresh(pn) && pn.Length == width && Value() == 0
      ensures forall i :: 0 <= i < width ==> pn[i] == 0
    {
      pn := new uint32[width](_ => 0);
      new;
      ValZeros(pn[..]);
    }

    constructor Copy(b: BaseUint)
      ensures fresh(pn) && pn[..] == b.pn[..]
    {
      pn := new uint32[b.pn.Length](i requires 0 <= i < b.pn.Length reads b.pn => b.pn[i]);
    }

    /** Assignment of a 64-bit number. */
    method SetU64(b: nat)
      requires b <= MAX64 && pn.Length >= 2
      modifies pn
      ensures Value() == b
    {
      hide Val, Weight;
      pn[0] := b % BASE;
      pn[1] := b / BASE;
      var i := 2;
      while i < pn.Length
        invariant 2 <= i <= pn.Length
        invariant pn[0] == b % BASE && pn[1] == b / BASE
        invariant forall k :: 2 <= k < i ==> pn[k] == 0
      {
        pn[i] := 0;
        i := i + 1;
      }
      TwoLimbs(pn[..]);
    }

    /** The low 64 bits. */
    method GetLow64() returns (r: nat)
      requires pn.Length >= 2
      ensures r == Value() % (MAX64 + 1)
    {
      hide Val, Weight;
      r := pn[0] + pn[1] * BASE;
      LowLimbs(pn[..]);
    }

    method AddAssign(b: BaseUint)
      requires b.pn.Length == pn.Length
      modifies pn
      ensures Value() == (old(Value()) + old(b.Value())) % Weight(pn.Length)
    {
      hide Val, Weight, Added;
      ghost var x, y := pn[..], b.pn[..];
      var carry: nat := 0;
      var i := 0;
      AddStart(x, y);
      assert pn[..0] == [];
      while i < pn.Length
        invariant 0 <= i <= pn.Length && carry <= 1
        invariant pn[i..] == x[i..] && b.pn[i..] == y[i..]
        invariant Added(pn[..i], carry, x, y)
      {
        assert pn[i] == pn[i..][0] == x[i] && b.pn[i] == b.pn[i..][0] == y[i];
        var n := carry + pn[i] + b.pn[i];
        assert n <= MAX64;
        AddStep(pn[..i], carry, x, y);
        ghost var done := pn[..i] + [n % BASE];
        pn[i] := n % BASE;
        assert pn[..i + 1] == done;
        carry := n / BASE;
        i := i + 1;
      }
      assert pn[..i] == pn[..];
      AddEnd(pn[..], carry, x, y);
    }

    /** operator~ */
    method Complement() returns (r: BaseUint)
      ensures fresh(r) && fresh(r.pn) && r.pn.Length == pn.Length
      ensures r.Value() == Weight(pn.Length) - 1 - Value()
    {
      hide Val, Weight;
      r := new BaseUint(pn.Length);
      var i := 0;
      while i < pn.Length
        invariant 0 <= i <= pn.Length
        invariant forall k :: 0 <= k < i ==> r.pn[k] == BASE - 1 - pn[k]
      {
        r.pn[i] := BASE - 1 - pn[i];
        i := i + 1;
      }
      ComplementVal(pn[..], r.pn[..]);
    }

    /** operator++ */
    method Increment()
      modifies pn
      ensures Value() == (old(Value()) + 1) % Weight(pn.Length)
    {
      hide Val, Weight;
      ghost var x := pn[..];
      var i := 0;
      while i < pn.Length
        invariant 0 <= i <= pn.Length
        invariant x[..i] == Run(i, BASE - 1) && pn[..i] == Run(i, 0) && pn[i..] == x[i..]
      {
        pn[i] := (pn[i] + 1) % BASE;
        if pn[i] != 0 {
          IncrementVal(x, pn[..], i);
          Wrapped(pn[..], Val(x) + 1, 0);
          return;
        }
        assert x[..i + 1] == x[..i] + [BASE - 1] == Run(i + 1, BASE - 1);
        assert pn[..i + 1] == pn[..i] + [0] == Run(i + 1, 0);
        i := i + 1;
      }
      RunOfOnes(i);
      assert x == x[..i] && pn[..] == pn[..i];
      ValZeros(pn[..]);
      Wrapped(pn[..], Val(x) + 1, 1);
    }

    /** operator-- */
    method Decrement()
      modifies pn
      ensures Value() == (old(Value()) - 1) % Weight(pn.Length)
    {
      hide Val, Weight;
      ghost var x := pn[..];
      var i := 0;
      while i < pn.Length
        invariant 0 <= i <= pn.Length
        invariant x[..i] == Run(i, 0) && pn[..i] == Run(i, BASE - 1) && pn[i..] == x[i..]
      {
        pn[i] := (pn[i] - 1) % BASE;
        if pn[i] != BASE - 1 {
          IncrementVal(pn[..], x, i);
          Wrapped(pn[..], Val(x) - 1, 0);
          return;
        }
        assert x[..i + 1] == x[..i] + [0] == Run(i + 1, 0);
        assert pn[..i + 1] == pn[..i] + [BASE - 1] == Run(i + 1, BASE - 1);
        i := i + 1;
      }
      RunOfOnes(i);
      assert x == x[..i] && pn[..] == pn[..i];
      ValZeros(x);
      Wrapped(pn[..], Val(x) - 1, -1);
    }

    /** Unary minus. */
    method Negate() returns (r: BaseUint)
      ensures fresh(r) && fresh(r.pn) && r.pn.Length == pn.Length
      ensures r.Value() == (Weight(pn.Length) - Value()) % Weight(pn.Length)
    {
      hide Val, Weight;
      r := Complement();
      r.Increment();
    }

    method SubAssign(b: BaseUint)
      requires b.pn.Length == pn.Length
      modifies pn
      ensures Value() == (old(Value()) - old(b.Value())) % Weight(pn.Length)
    {
      hide Val, Weight;
      var m := b.Negate();
      ghost var x, y, w := Value(), b.Value(), Weight(pn.Length);
      ValBound(b.pn[..]);
      AddAssign(m);
      SubtractModulo(x, y, w);
    }

    method MulAssign32(b: uint32)
      modifies pn
      ensures Value() == b * old(Value()) % Weight(pn.Length)
    {
      hide Val, Weight, Scaled;
      ghost var x := pn[..];
      var carry: uint32 := 0;
      var i := 0;
      assert pn[..0] == [];
      ScaleStart(x, b);
      while i < pn.Length
        invariant 0 <= i <= pn.Length
        invariant pn[i..] == x[i..]
        invariant Scaled(pn[..i], carry, x, b)
      {
        assert pn[i] == pn[i..][0] == x[i];
        NoOverflow(carry, 0, b, pn[i]);
        var n := carry + b * pn[i];
        ScaleStep(pn[..i], carry, x, b);
        ghost var done := pn[..i] + [n % BASE];
        pn[i] := n % BASE;
        assert pn[..i + 1] == done;
        carry := n / BASE;
        i := i + 1;
      }
      assert pn[..i] == pn[..];
      ScaleEnd(pn[..], carry, x, b);
    }

    /** One row of the product: pn[j] times b, added to the accumulator a from limb j upward. */
    method MulRow(a: BaseUint, b: BaseUint, j: nat) returns (ghost q: int)
      requires a.pn.Length == b.pn.Length == pn.Length && j < pn.Length && a.pn != b.pn && a.pn != pn
      modifies a.pn
      ensures a.Value() + q * Weight(pn.Length) == old(a.Value()) + pn[j] * Weight(j) * b.Value()
    {
      hide Val, Weight, RowAdded;
      ghost var x := a.pn[..];
      var carry: uint32 := 0;
      var i := 0;
      RowStart(x, pn[j], b.pn[..], j);
      while i + j < pn.Length
        invariant 0 <= i && i + j <= pn.Length
        invariant a.pn[i + j..] == x[i + j..]
        invariant RowAdded(a.pn[..i + j], carry, x, pn[j], b.pn[..], j)
      {
        assert a.pn[i + j] == a.pn[i + j..][0] == x[i + j];
        NoOverflow(carry, a.pn[i + j], pn[j], b.pn[i]);
        var n: nat := carry + a.pn[i + j] + (pn[j] as nat) * b.pn[i];
        RowStep(a.pn[..i + j], carry, x, pn[j], b.pn[..], j);
        ghost var done := a.pn[..i + j] + [n % BASE];
        a.pn[i + j] := n % BASE;
        assert a.pn[..i + j + 1] == done;
        carry := n / BASE;
        i := i + 1;
      }
      assert a.pn[..i + j] == a.pn[..];
      q := RowEnd(a.pn[..], carry, x, pn[j], b.pn[..], j);
    }

    method MulAssign(b: BaseUint)
      requires b.pn.Length == pn.Length
      modifies pn
      ensures Value() == old(Value()) * old(b.Value()) % Weight(pn.Length)
    {
      hide Val, Weight, Multiplied;
      ghost var x, y := pn[..], b.pn[..];
      var a := new BaseUint(pn.Length);
      ghost var q := 0;
      MultiplyStart(a.pn[..], x, y);
      var j := 0;
      while j < pn.Length
        invariant 0 <= j <= pn.Length
        invariant pn[..] == x && b.pn[..] == y
        invariant Multiplied(a.pn[..], x, j, y, q)
        modifies a.pn
      {
        ghost var acc := a.pn[..];
        ghost var d := MulRow(a, b, j);
        assert x[j] == pn[j];
        MultiplyStep(acc, a.pn[..], x, j, y, q, d);
        q := q + d;
        j := j + 1;
      }
      MultiplyEnd(a.pn[..], x, y, q);
      Assign(a);
    }

    /** operator= */
    method Assign(b: BaseUint)
      requires b.pn.Length == pn.Length
      modifies pn
      ensures pn[..] == old(b.pn[..])
    {
      var i := 0;
      while i < pn.Length
        invariant 0 <= i <= pn.Length
        invariant forall k :: 0 <= k < i ==> pn[k] == old(b.pn[k])
        invariant forall k :: i <= k < pn.Length ==> b.pn[k] == old(b.pn[k])
      {
        pn[i] := b.pn[i];
        i := i + 1;
      }
    }

    /** operator<<= */
    method ShlAssign(shift: nat)
      modifies pn
      ensures Value() == old(Value()) * Pow2(shift) % Weight(pn.Length)
    {
      hide Val, Weight, ShlPart;
      var a := pn[..];
      Zero();
      var k, s := shift / 32, shift % 32;
      var i := 0;
      ShlStart(pn[..], a, k, s);
      while i < pn.Length
        invariant 0 <= i <= pn.Length == |a|
        invariant ShlDone(pn[..], a, k, s, i)
      {
        ghost var before := pn[..];
        if i + k + 1 < pn.Length && s != 0 {
          pn[i + k + 1] := Or32(pn[i + k + 1], Shr32(a[i], 32 - s));
        }
        if i + k < pn.Length {
          pn[i + k] := Or32(pn[i + k], Lo(a[i], s));
        }
        ShlStep(before, pn[..], a, k, s, i);
        i := i + 1;
      }
      ShlVal(pn[..], a, shift);
    }

    /** operator>>= */
    method ShrAssign(shift: nat)
      modifies pn
      ensures Value() == old(Value()) / Pow2(shift)
    {
      hide Val, Weight, ShrPart;
      var a := pn[..];
      Zero();
      var k, s := shift / 32, shift % 32;
      var i := 0;
      ShrStart(pn[..], a, k, s);
      while i < pn.Length
        invariant 0 <= i <= pn.Length == |a|
        invariant ShrDone(pn[..], a, k, s, i)
      {
        ghost var before := pn[..];
        if i - k - 1 >= 0 && s != 0 {
          pn[i - k - 1] := Or32(pn[i - k - 1], Lo(a[i], 32 - s));
        }
        if i - k >= 0 {
          pn[i - k] := Or32(pn[i - k], Shr32(a[i], s));
        }
        ShrStep(before, pn[..], a, k, s, i);
        i := i + 1;
      }
      ShrVal(pn[..], a, shift);
    }

    /** The loop that clears all limbs. */
    method Zero()
      modifies pn
      ensures forall i :: 0 <= i < pn.Length ==> pn[i] == 0
      ensures Value() == 0
    {
      var i := 0;
      while i < pn.Length
        invariant 0 <= i <= pn.Length
        invariant forall k :: 0 <= k < i ==> pn[k] == 0
      {
        pn[i] := 0;
        i := i + 1;
      }
      ValZeros(pn[..]);
    }

    method CompareTo(b: BaseUint) returns (c: int)
      requires b.pn.Length == pn.Length
      ensures c == -1 <==> Value() < b.Value()
      ensures c == 1 <==> Value() > b.Value()
      ensures c == 0 <==> Value() == b.Value()
    {
      hide Val, Weight;
      var i := pn.Length - 1;
      while i >= 0
        invariant -1 <= i < pn.Length
        invariant forall k :: i < k < pn.Length ==> pn[k] == b.pn[k]
      {
        if pn[i] < b.pn[i] {
          CompareVal(pn[..], b.pn[..], i);
          return -1;
        }
        if pn[i] > b.pn[i] {
          CompareVal(b.pn[..], pn[..], i);
          return 1;
        }
        i := i - 1;
      }
      assert pn[..] == b.pn[..];
      return 0;
    }

    /** Comparison with a 64-bit number. */
    method EqualTo(b: nat) returns (r: bool)
      requires b <= MAX64 && pn.Length >= 2
      ensures r <==> Value() == b
    {
      hide Val, Weight;
      var i := pn.Length - 1;
      while i >= 2
        invariant 1 <= i < pn.Length
        invariant forall k :: i < k < pn.Length ==> pn[k] == 0
      {
        if pn[i] != 0 {
          AboveTwoLimbs(pn[..], i);
          return false;
        }
        i := i - 1;
      }
      TwoLimbs(pn[..]);
      if pn[1] != b / BASE {
        return false;
      }
      if pn[0] != b % BASE {
        return false;
      }
      return true;
    }

    /** The position of the highest set bit plus one. */
    method Bits() returns (n: nat)
      ensures BitLength(Value(), n) && n <= 32 * pn.Length
    {
      hide Val, Weight, BitLength;
      var pos := pn.Length - 1;
      while pos >= 0
        invariant -1 <= pos < pn.Length
        invariant forall k :: pos < k < pn.Length ==> pn[k] == 0
      {
        if pn[pos] != 0 {
          n := LimbBits(pn[pos]);
          TopBit(pn[..], pos, n - 1);
          BitLengthFrom(Value(), 32 * pos + n);
          return 32 * pos + n;
        }
        pos := pos - 1;
      }
      ValZeros(pn[..]);
      BitLengthZero();
      return 0;
    }

    /** The inner loop of bits(): the top bit of one limb. */
    static method LimbBits(x: uint32) returns (n: nat)
      requires x != 0
      ensures 1 <= n <= 32 && Pow2(n - 1) <= x < Pow2(n)
    {
      hide Pow2;
      Pow2Is32();
      var nbits := 31;
      while nbits > 0
        invariant 0 <= nbits <= 31 && x < Pow2(nbits + 1)
      {
        BitClear(x, nbits);
        if x / Pow2(nbits) % 2 == 1 {
          return nbits + 1;
        }
        nbits := nbits - 1;
      }
      assert Pow2(0) == 1 by { WeightZero(); }
      return 1;
    }

    /** Sets one bit of the quotient. */
    method SetBit(shift: nat)
      requires shift / 32 < pn.Length && Value() % Pow2(shift + 1) == 0
      modifies pn
      ensures Value() == old(Value()) + Pow2(shift)
    {
      hide Val, Weight, Pow2;
      ghost var a := pn[..];
      pn[shift / 32] := Or32(pn[shift / 32], Bit32(shift % 32));
      BitSetVal(a, pn[..], shift);
    }

    /** operator/=; it throws, leaving zero behind, exactly when the divisor is zero. */
    method DivAssign(b: BaseUint) returns (ok: bool)
      requires b.pn.Length == pn.Length
      modifies pn
      ensures ok <==> old(b.Value()) != 0
      ensures Value() == if ok then old(Value()) / old(b.Value()) else 0
    {
      hide Val, Weight, Pow2, Dividing, BitLength;
      var div := new BaseUint.Copy(b);
      var num := new BaseUint.Copy(this);
      ghost var n, d := num.Value(), div.Value();
      Zero();
      var numBits := num.Bits();
      var divBits := div.Bits();
      BitLengthCases(n, d, numBits, divBits);
      if divBits == 0 {
        return false;
      }
      if divBits > numBits {
        return true;
      }
      DivideStart(n, d, numBits, divBits);
      var shift := numBits - divBits;
      div.ShlAssign(shift);
      NoShiftLoss(d * Pow2(shift), numBits, pn.Length);
      while shift >= 0
        invariant -1 <= shift && shift / 32 < pn.Length
        invariant Dividing(n, d, Value(), num.Value(), shift + 1)
        invariant shift >= 0 ==> div.Value() == d * Pow2(shift)
        modifies pn, div.pn, num.pn
      {
        DivideStep(n, d, Value(), num.Value(), shift);
        QuotientClear(n, d, Value(), num.Value(), shift);
        var c := num.CompareTo(div);
        if c >= 0 {
          num.SubExact(div);
          SetBit(shift);
        }
        if shift > 0 { Halve(d, shift); }
        div.ShrAssign(1);
        shift := shift - 1;
      }
      DivideEnd(n, d, Value(), num.Value());
      return true;
    }

    /** Subtraction of a number that is not larger. */
    method SubExact(b: BaseUint)
      requires b.pn.Length == pn.Length && b.Value() <= Value()
      modifies pn
      ensures Value() == old(Value()) - old(b.Value())
    {
      hide Val, Weight;
      ValBound(pn[..]);
      ghost var x, y, w := Value(), b.Value(), Weight(pn.Length);
      SubAssign(b);
      DivModUnique(x - y, 0, x - y, w);
    }
  }
}
