/**
Base58 strings, src/base58.cpp:38-125: both directions work in place on a buffer of digits whose size is
estimated from the length of the input.
*/
module Base58 {
  import opened Common
  import opened Numbers

  type byte = x: nat | x < 256

  // ------------------------------------------------------------------ positional notation

  function Pow(b: nat, n: nat): (p: nat) {
    if n == 0 then 1 else b * Pow(b, n - 1)
  }

  lemma {:induction false} PowPos(b: nat, n: nat)
    requires b >= 1
    ensures Pow(b, n) >= 1
  {
    if n > 0 {
      PowPos(b, n - 1);
      MulMono(b, 1, Pow(b, n - 1));
    }
  }

  lemma PowStep(b: nat, n: nat)
    ensures Pow(b, n + 1) == b * Pow(b, n)
  {}

  lemma {:induction false} PowAdd(b: nat, m: nat, n: nat)
    ensures Pow(b, m + n) == Pow(b, m) * Pow(b, n)
  {
    if m > 0 {
      PowAdd(b, m - 1, n);
      MulAssoc(b, Pow(b, m - 1), Pow(b, n));
    }
  }

  lemma PowMono(b: nat, m: nat, n: nat)
    requires b >= 1 && m <= n
    ensures Pow(b, m) <= Pow(b, n)
  {
    PowPos(b, m);
    PowPos(b, n - m);
    PowAdd(b, m, n - m);
    MulMono(Pow(b, m), 1, Pow(b, n - m));
  }

  lemma {:induction false} PowPow(b: nat, m: nat, n: nat)
    ensures Pow(Pow(b, m), n) == Pow(b, m * n)
  {
    if n > 0 {
      PowPow(b, m, n - 1);
      PowAdd(b, m, m * (n - 1));
      assert m + m * (n - 1) == m * n;
    }
  }

  lemma PowPowComm(b: nat, m: nat, n: nat)
    ensures Pow(Pow(b, m), n) == Pow(Pow(b, n), m)
  {
    PowPow(b, m, n);
    PowPow(b, n, m);
    assert m * n == n * m;
  }

  /** A larger base has the larger power. */
  lemma {:induction false} PowBase(a: nat, b: nat, n: nat)
    requires a <= b
    ensures Pow(a, n) <= Pow(b, n)
  {
    if n > 0 {
      PowBase(a, b, n - 1);
      MulMono(a, Pow(a, n - 1), Pow(b, n - 1));
      MulMono(Pow(b, n - 1), a, b);
    }
  }

  lemma {:induction false} PowBaseStrict(a: nat, b: nat, n: nat)
    requires a < b && n > 0
    ensures Pow(a, n) < Pow(b, n)
  {
    hide Pow;
    PowStep(a, n - 1);
    PowStep(b, n - 1);
    PowBase(a, b, n - 1);
    MulMono(a, Pow(a, n - 1), Pow(b, n - 1));
    PowPos(b, n - 1);
    MulMono(Pow(b, n - 1), a + 1, b);
  }

  predicate Digits(r: nat, s: seq<nat>) { forall i :: 0 <= i < |s| ==> s[i] < r }

  /** The number that a big-endian digit string stands for in radix r. */
  ghost function Num(r: nat, s: seq<nat>): (v: nat) {
    if s == [] then 0 else Num(r, s[..|s| - 1]) * r + s[|s| - 1]
  }

  lemma Empty(r: nat)
    ensures Num(r, []) == 0 && Pow(r, 0) == 1
  {}

  lemma NumSnoc(r: nat, s: seq<nat>, d: nat)
    ensures Num(r, s + [d]) == Num(r, s) * r + d
  {
    assert (s + [d])[..|s|] == s;
  }

  lemma {:induction false} NumCons(r: nat, d: nat, s: seq<nat>)
    ensures Num(r, [d] + s) == d * Pow(r, |s|) + Num(r, s)
  {
    if s == [] {
      NumSnoc(r, [], d);
      assert [d] + s == [] + [d];
    } else {
      var n := |s| - 1;
      var e := s[n];
      NumCons(r, d, s[..n]);
      assert [d] + s == ([d] + s[..n]) + [e];
      NumSnoc(r, [d] + s[..n], e);
      NumConsArithmetic(d, Pow(r, n), Num(r, s[..n]), r, e);
    }
  }

  lemma NumConsArithmetic(d: int, p: int, v: int, r: int, e: int)
    ensures (d * p + v) * r + e == d * (r * p) + (v * r + e)
  {
    assert (d * p + v) * r == d * p * r + v * r;
    assert d * p * r == d * (r * p);
  }

  lemma {:induction false} NumBound(r: nat, s: seq<nat>)
    requires Digits(r, s) && r >= 1
    ensures Num(r, s) < Pow(r, |s|)
  {
    hide Num, Pow;
    Empty(r);
    if s != [] {
      var n := |s| - 1;
      NumBound(r, s[..n]);
      assert s == s[..n] + [s[n]];
      NumSnoc(r, s[..n], s[n]);
      PowStep(r, n);
      MulMono(r, Num(r, s[..n]) + 1, Pow(r, n));
    }
  }

  lemma {:induction false} NumZeros(r: nat, z: seq<nat>, s: seq<nat>)
    requires forall i :: 0 <= i < |z| ==> z[i] == 0
    ensures Num(r, z + s) == Num(r, s)
    decreases |z|
  {
    hide Num, Pow;
    if z == [] {
      assert z + s == s;
    } else {
      NumZeros(r, z[1..], s);
      assert z + s == [0] + (z[1..] + s);
      NumCons(r, 0, z[1..] + s);
    }
  }

  /** The digits of v without leading zeros. */
  function DigitsOf(r: nat, v: nat): (s: seq<nat>)
    requires r >= 2
    ensures Digits(r, s) && NoLeadingZero(s)
    decreases v
  {
    if v == 0 then [] else
      DivLess(v, r);
      DigitsOf(r, v / r) + [v % r]
  }

  lemma DivLess(v: nat, r: nat)
    requires v > 0 && r >= 2
    ensures v / r < v && v % r < r && (v / r == 0 ==> v % r == v) && v / r * r + v % r == v
  {
    var q := v / r;
    assert v == q * r + v % r;
    MulMono(q, 2, r);
  }

  predicate NoLeadingZero(s: seq<nat>) { s != [] ==> s[0] != 0 }

  lemma DigitsZero(r: nat)
    requires r >= 2
    ensures DigitsOf(r, 0) == []
  {}

  lemma DigitsStep(r: nat, v: nat)
    requires r >= 2 && v > 0
    ensures DigitsOf(r, v) == DigitsOf(r, v / r) + [v % r]
  {}

  lemma {:induction false} NumOfDigits(r: nat, v: nat)
    requires r >= 2
    ensures Num(r, DigitsOf(r, v)) == v
    decreases v
  {
    hide Num, DigitsOf;
    if v == 0 {
      Empty(r);
      DigitsZero(r);
    } else {
      DivLess(v, r);
      NumOfDigits(r, v / r);
      DigitsStep(r, v);
      NumSnoc(r, DigitsOf(r, v / r), v % r);
    }
  }

  /** Digits without leading zeros are determined by their number. */
  lemma {:induction false} DigitsOfNum(r: nat, s: seq<nat>)
    requires r >= 2 && Digits(r, s) && NoLeadingZero(s)
    ensures DigitsOf(r, Num(r, s)) == s
  {
    if s != [] {
      var n := |s| - 1;
      var t, d := s[..n], s[n];
      hide Num, DigitsOf;
      DigitsOfNum(r, t);
      assert s == t + [d];
      NumSnoc(r, t, d);
      NumPositive(r, s);
      DivModUnique(Num(r, s), Num(r, t), d, r);
      DigitsStep(r, Num(r, s));
    }
  }

  lemma NumPositive(r: nat, s: seq<nat>)
    requires r >= 1 && s != [] && s[0] != 0
    ensures Num(r, s) >= Pow(r, |s| - 1) >= 1
  {
    assert s == [s[0]] + s[1..];
    NumCons(r, s[0], s[1..]);
    PowPos(r, |s| - 1);
    MulMono(Pow(r, |s| - 1), 1, s[0]);
  }

  // ------------------------------------------------------------------ buffer sizes

  lemma RootMono(x: nat, y: nat, k: nat)
    requires k > 0 && Pow(x, k) <= Pow(y, k)
    ensures x <= y
  {
    if y < x { PowBaseStrict(y, x, k); }
  }

  lemma Squared(b: nat, n: nat, p: nat)
    requires Pow(b, n) == p
    ensures Pow(b, 2 * n) == p * p
  {
    PowAdd(b, n, n);
  }

  /** Eight bytes fit into eleven base58 digits. */
  lemma EightBytes()
    ensures Pow(256, 8) <= Pow(58, 11)
  {
    hide Pow;
    Small(256);
    Squared(256, 1, 256);
    Squared(256, 2, 65536);
    Squared(256, 4, 4294967296);
    Small(58);
    Squared(58, 1, 58);
    Squared(58, 2, 3364);
    Squared(58, 4, 11316496);
    PowAdd(58, 8, 2);
    PowAdd(58, 10, 1);
  }

  lemma Small(b: nat)
    ensures Pow(b, 1) == b
  {
    assert Pow(b, 0) == 1;
  }

  /** Seventy-one base58 digits fit into fifty-two bytes. */
  lemma SeventyOneDigits()
    ensures Pow(58, 71) <= Pow(256, 52)
  {
    hide Pow;
    Small(58);
    Squared(58, 1, 58);
    Squared(58, 2, 3364);
    Squared(58, 4, 11316496);
    Squared(58, 8, 128063081718016);
    Squared(58, 16, 16400152899115243850138976256);
    Squared(58, 32, 268965015114358137726910587140455987105619365599731777536);
    PowAdd(58, 64, 4);
    PowAdd(58, 68, 2);
    PowAdd(58, 70, 1);
    Small(256);
    Squared(256, 1, 256);
    Squared(256, 2, 65536);
    Squared(256, 4, 4294967296);
    Squared(256, 8, 18446744073709551616);
    Squared(256, 16, 340282366920938463463374607431768211456);
    PowAdd(256, 32, 16);
    PowAdd(256, 48, 4);
  }

  /** If b^i <= c^j, then n digits of radix b fit into size digits of radix c whenever j * n <= i * size. */
  lemma FitsByRatio(b: nat, i: nat, c: nat, j: nat, n: nat, size: nat)
    requires i > 0 && c >= 1 && Pow(b, i) <= Pow(c, j) && j * n <= i * size
    ensures Pow(b, n) <= Pow(c, size)
  {
    hide Pow;
    PowPowComm(b, n, i);
    PowBase(Pow(b, i), Pow(c, j), n);
    PowPow(c, j, n);
    PowMono(c, j * n, i * size);
    PowPow(c, i, size);
    PowPowComm(c, i, size);
    RootMono(Pow(b, n), Pow(c, size), i);
  }

  /** n * 138 / 100 + 1 base58 digits hold every number of n bytes. */
  lemma EncodeFits(n: nat)
    ensures Pow(256, n) <= Pow(58, n * 138 / 100 + 1)
  {
    hide Pow;
    EightBytes();
    FitsByRatio(256, 8, 58, 11, n, n * 138 / 100 + 1);
  }

  /** n * 733 / 1000 + 1 bytes hold every number of n base58 digits. */
  lemma DecodeFits(n: nat)
    ensures Pow(58, n) <= Pow(256, n * 733 / 1000 + 1)
  {
    hide Pow;
    SeventyOneDigits();
    FitsByRatio(58, 71, 256, 52, n, n * 733 / 1000 + 1);
  }

  // ------------------------------------------------------------------ the multiply-and-add loop

  /** The last length places hold the digits, the first of them not zero, and the places before are zero. */
  predicate Exact(s: seq<nat>, length: nat) {
    && length <= |s|
    && (forall i :: 0 <= i < |s| - length ==> s[i] == 0)
    && (length > 0 ==> s[|s| - length] != 0)
  }

  /** After i places from the end: the new digits t and the carry hold factor times the old digits s, plus d. */
  ghost predicate Scaled(r: nat, t: seq<nat>, carry: nat, s: seq<nat>, factor: nat, d: nat) {
    |t| == |s| && Num(r, t) + carry * Pow(r, |t|) == factor * Num(r, s) + d
  }

  lemma ScaleStart(r: nat, factor: nat, d: nat)
    ensures Scaled(r, [], d, [], factor, d)
  {}

  lemma ScaleStep(r: nat, t: seq<nat>, carry: nat, s: seq<nat>, factor: nat, d: nat, x: nat)
    requires r >= 1 && Scaled(r, t, carry, s, factor, d)
    ensures
      var n := carry + factor * x;
      Scaled(r, [n % r] + t, n / r, [x] + s, factor, d)
  {
    hide Num, Pow;
    var n, p := carry + factor * x, Pow(r, |t|);
    NumCons(r, n % r, t);
    NumCons(r, x, s);
    PowStep(r, |t|);
    ScaleArithmetic(n, r, p, carry, factor, x, Num(r, s));
  }

  lemma ScaleArithmetic(n: nat, r: nat, p: nat, carry: nat, factor: nat, x: nat, v: nat)
    requires r >= 1 && n == carry + factor * x
    ensures n % r * p + n / r * (r * p) == carry * p + factor * (x * p + v) - factor * v
  {
    assert n == n / r * r + n % r;
    assert (n / r * r + n % r) * p == n / r * (r * p) + n % r * p;
    assert (carry + factor * x) * p == carry * p + factor * (x * p);
    assert factor * (x * p + v) == factor * (x * p) + factor * v;
  }

  /** At the end nothing is carried out, and the whole buffer holds the product. */
  lemma ScaleEnd(r: nat, s: seq<nat>, t: seq<nat>, k: nat, carry: nat, factor: nat, d: nat)
    requires r >= 1 && k <= |s| == |t|
    requires (forall i :: 0 <= i < k ==> s[i] == 0 && t[i] == 0)
    requires Scaled(r, t[k..], carry, s[k..], factor, d) && (carry == 0 || k == 0)
    requires factor * Num(r, s) + d < Pow(r, |s|)
    ensures carry == 0 && Num(r, t) == factor * Num(r, s) + d
  {
    hide Num, Pow;
    assert s == s[..k] + s[k..] && t == t[..k] + t[k..];
    NumZeros(r, s[..k], s[k..]);
    NumZeros(r, t[..k], t[k..]);
    if carry > 0 { MulMono(Pow(r, |s|), 1, carry); }
  }

  /** buf := buf * factor + digit, in radix r.  The program asserts at its end that no carry is left. */
  method MulAdd(buf: array<nat>, length: nat, r: nat, factor: nat, digit: nat) returns (i: nat)
    requires r >= 2 && factor >= 1 && Digits(r, buf[..]) && Exact(buf[..], length)
    requires factor * Num(r, buf[..]) + digit < Pow(r, buf.Length)
    modifies buf
    ensures Digits(r, buf[..]) && Exact(buf[..], i) && length <= i
    ensures Num(r, buf[..]) == factor * old(Num(r, buf[..])) + digit
  {
    hide Num, Pow, Scaled;
    ghost var s := buf[..];
    var size := buf.Length;
    var carry: nat := digit;
    i := 0;
    ScaleStart(r, factor, digit);
    assert buf[size..] == [] && s[size..] == [];
    while (carry != 0 || i < length) && i < size
      invariant 0 <= i <= size
      invariant forall k :: 0 <= k < size - i ==> buf[k] == s[k]
      invariant Digits(r, buf[..])
      invariant Scaled(r, buf[size - i..], carry, s[size - i..], factor, digit)
      invariant i >= length && i > 0 ==> carry != 0 || buf[size - i] != 0
      decreases size - i
    {
      var at := size - 1 - i;
      ghost var t, u := buf[at + 1..], s[at + 1..];
      ghost var x := s[at];
      assert buf[at] == x;
      NonZeroStep(carry, factor, x, r);
      ScaleStep(r, t, carry, u, factor, digit, x);
      carry := carry + factor * buf[at];
      buf[at] := carry % r;
      assert buf[at..] == [carry % r] + t && s[at..] == [x] + u;
      carry := carry / r;
      i := i + 1;
    }
    ScaleEnd(r, s, buf[..], size - i, carry, factor, digit);
    assert carry == 0;
  }

  lemma NonZeroStep(carry: nat, factor: nat, x: nat, r: nat)
    requires r >= 2 && factor >= 1
    ensures var n := carry + factor * x; (carry > 0 || x > 0) ==> n > 0
    ensures var n := carry + factor * x; n > 0 ==> n / r != 0 || n % r != 0
    ensures var n := carry + factor * x; 0 <= n % r < r && n / r >= 0
  {
    var n := carry + factor * x;
    if x > 0 { MulMono(factor, 1, x); }
    assert n == n / r * r + n % r;
  }

  // ------------------------------------------------------------------ the alphabet

  /** pszBase58: the digits, upper-case letters without I and O, lower-case letters without l. */
  function Char58(d: nat): (c: byte)
    requires d < 58
  {
    if d < 9 then 49 + d
    else if d < 17 then 56 + d
    else if d < 22 then 57 + d
    else if d < 33 then 58 + d
    else if d < 44 then 64 + d
    else 65 + d
  }

  /** mapBase58, with -1 for bytes outside the alphabet. */
  function Map58(c: byte): (d: int)
    ensures -1 <= d < 58
  {
    if 49 <= c <= 57 then c - 49
    else if 65 <= c <= 72 then c - 56
    else if 74 <= c <= 78 then c - 57
    else if 80 <= c <= 90 then c - 58
    else if 97 <= c <= 107 then c - 64
    else if 109 <= c <= 122 then c - 65
    else -1
  }

  predicate IsSpace(c: byte) { c == 32 || 9 <= c <= 13 }

  predicate NotSpace(c: byte) { !IsSpace(c) }

  const ONE: byte := 49

  predicate IsOne(c: byte) { c == ONE }

  predicate IsZero(c: byte) { c == 0 }

  /** The two tables are inverse to each other, and the alphabet has no space. */
  lemma Alphabet(d: nat, c: byte)
    ensures d < 58 ==> Map58(Char58(d)) == d && !IsSpace(Char58(d)) && Char58(d) != 0
    ensures Map58(c) >= 0 ==> Char58(Map58(c)) == c && !IsSpace(c)
    ensures Map58(c) == 0 <==> c == ONE
  {}

  ghost function Text(s: seq<nat>): (t: seq<byte>)
    requires Digits(58, s)
    ensures |t| == |s| && forall i :: 0 <= i < |s| ==> t[i] == Char58(s[i])
  {
    seq(|s|, i requires 0 <= i < |s| => Char58(s[i]))
  }

  predicate InAlphabet(t: seq<byte>) { forall i :: 0 <= i < |t| ==> Map58(t[i]) >= 0 }

  ghost function Values(t: seq<byte>): (s: seq<nat>)
    requires InAlphabet(t)
    ensures |s| == |t| && Digits(58, s) && forall i :: 0 <= i < |s| ==> s[i] == Map58(t[i])
  {
    seq(|t|, i requires 0 <= i < |t| => Map58(t[i]))
  }

  function Repeat(c: byte, n: nat): (s: seq<byte>)
    ensures |s| == n && forall i :: 0 <= i < n ==> s[i] == c
  {
    seq(n, _ => c)
  }

  /** The number of leading elements that satisfy p. */
  ghost function Lead(s: seq<byte>, p: byte -> bool): (n: nat)
    ensures n <= |s|
    ensures forall i :: 0 <= i < n ==> p(s[i])
    ensures n < |s| ==> !p(s[n])
  {
    if s == [] || !p(s[0]) then 0 else 1 + Lead(s[1..], p)
  }

  lemma LeadIs(s: seq<byte>, p: byte -> bool, n: nat)
    requires n <= |s| && (forall i :: 0 <= i < n ==> p(s[i])) && (n < |s| ==> !p(s[n]))
    ensures Lead(s, p) == n
  {
    hide Lead;
    var m := Lead(s, p);
  }

  // ------------------------------------------------------------------ encoding

  ghost function LeadingZeros(x: seq<byte>): (n: nat)
    ensures n <= |x| && (forall i :: 0 <= i < n ==> x[i] == 0) && (n < |x| ==> x[n] != 0)
  {
    Lead(x, IsZero)
  }

  /** A '1' for each leading zero byte, then the digits of the number the bytes stand for. */
  ghost function Encoded(x: seq<byte>): (t: seq<byte>) {
    Repeat(ONE, LeadingZeros(x)) + Text(DigitsOf(58, Num(256, x)))
  }

  /** The zero prefix does not count, and the rest is determined by its number. */
  lemma StripZeros(x: seq<byte>, z: nat)
    requires z <= |x| && (forall i :: 0 <= i < z ==> x[i] == 0) && (z < |x| ==> x[z] != 0)
    ensures LeadingZeros(x) == z && Num(256, x) == Num(256, x[z..])
    ensures DigitsOf(256, Num(256, x)) == x[z..]
    ensures x == Repeat(0, z) + x[z..]
  {
    hide Num, DigitsOf;
    LeadIs(x, IsZero, z);
    assert x == x[..z] + x[z..];
    NumZeros(256, x[..z], x[z..]);
    DigitsOfNum(256, x[z..]);
  }

  /** The digits held by an exact buffer. */
  lemma ExactDigits(r: nat, s: seq<nat>, length: nat)
    requires r >= 2 && Digits(r, s) && Exact(s, length)
    ensures DigitsOf(r, Num(r, s)) == s[|s| - length..]
  {
    hide Num, DigitsOf;
    var k := |s| - length;
    assert s == s[..k] + s[k..];
    NumZeros(r, s[..k], s[k..]);
    DigitsOfNum(r, s[k..]);
  }

  /** One more input digit stays within the buffer. */
  lemma NextFits(r: nat, s: seq<nat>, k: nat, c: nat, size: nat)
    requires r >= 1 && Digits(r, s) && k < |s| && Pow(r, |s|) <= Pow(c, size)
    ensures Num(r, s[..k + 1]) == r * Num(r, s[..k]) + s[k] < Pow(c, size)
  {
    hide Num, Pow;
    assert s[..k + 1] == s[..k] + [s[k]];
    NumSnoc(r, s[..k], s[k]);
    NumBound(r, s[..k + 1]);
    PowMono(r, k + 1, |s|);
  }

  method EncodeBase58(input: seq<byte>) returns (str: seq<byte>)
    ensures str == Encoded(input)
  {
    hide Num, Pow, DigitsOf, Char58, Text;
    var zeroes := 0;
    while zeroes < |input| && input[zeroes] == 0
      invariant 0 <= zeroes <= |input|
      invariant forall i :: 0 <= i < zeroes ==> input[i] == 0
    {
      zeroes := zeroes + 1;
    }
    StripZeros(input, zeroes);
    var b58, length := EncodeDigits(input[zeroes..]);
    ExactDigits(58, b58[..], length);
    var it := SkipZeros(b58, b58.Length - length);
    // The first digit is not zero, so nothing was skipped.
    assert it == b58.Length - length;
    str := Translate(b58, it, Repeat(ONE, zeroes));
  }

  /** The buffer loop of the encoder. */
  method EncodeDigits(rest: seq<byte>) returns (b58: array<nat>, length: nat)
    requires NoLeadingZero(rest)
    ensures fresh(b58) && Digits(58, b58[..]) && Exact(b58[..], length)
    ensures Num(58, b58[..]) == Num(256, rest)
  {
    hide Num, Pow;
    var size := |rest| * 138 / 100 + 1;
    b58 := new nat[size](_ => 0);
    length := 0;
    EncodeFits(|rest|);
    Empty(58);
    Empty(256);
    NumZeros(58, b58[..], []);
    assert b58[..] + [] == b58[..] && rest[..0] == [];
    var k := 0;
    while k < |rest|
      invariant 0 <= k <= |rest|
      invariant Digits(58, b58[..]) && Exact(b58[..], length) && b58.Length == size
      invariant Num(58, b58[..]) == Num(256, rest[..k])
    {
      NextFits(256, rest, k, 58, size);
      length := MulAdd(b58, length, 58, 256, rest[k]);
      k := k + 1;
    }
    assert rest[..k] == rest;
  }

  /** The loop that skips leading zeros of the result. */
  method SkipZeros(b: array<nat>, from: nat) returns (it: nat)
    requires from <= b.Length
    ensures from <= it <= b.Length && (it < b.Length ==> b[it] != 0)
    ensures forall j :: from <= j < it ==> b[j] == 0
  {
    it := from;
    while it < b.Length && b[it] == 0
      invariant from <= it <= b.Length
      invariant forall j :: from <= j < it ==> b[j] == 0
    {
      it := it + 1;
    }
  }

  /** The loop that turns digits into characters. */
  method Translate(b: array<nat>, from: nat, prefix: seq<byte>) returns (str: seq<byte>)
    requires from <= b.Length && Digits(58, b[..])
    ensures str == prefix + Text(b[from..])
  {
    hide Char58;
    str := prefix;
    var it := from;
    while it < b.Length
      invariant from <= it <= b.Length
      invariant str + Text(b[it..]) == prefix + Text(b[from..])
    {
      ghost var tail := b[it..];
      assert Text(tail) == [Char58(tail[0])] + Text(tail[1..]);
      assert tail[1..] == b[it + 1..];
      str := str + [Char58(b[it])];
      it := it + 1;
    }
    assert b[it..] == [];
  }

  // ------------------------------------------------------------------ decoding

  ghost function Trimmed(s: seq<byte>): (t: seq<byte>) { s[Lead(s, IsSpace)..] }

  /** The parts of a string after its leading spaces: ones, other characters up to a space, and the rest. */
  ghost function Ones(t: seq<byte>): (n: nat)
    ensures n <= |t|
  {
    Lead(t, IsOne)
  }

  ghost function Word(t: seq<byte>): (w: seq<byte>) {
    var b := t[Ones(t)..];
    b[..Lead(b, NotSpace)]
  }

  ghost function After(t: seq<byte>): (a: seq<byte>) {
    var b := t[Ones(t)..];
    b[Lead(b, NotSpace)..]
  }

  predicate AllSpaces(s: seq<byte>) { forall i :: 0 <= i < |s| ==> IsSpace(s[i]) }

  ghost predicate Readable(s: seq<byte>) {
    var t := Trimmed(s);
    0 !in s && InAlphabet(Word(t)) && AllSpaces(After(t))
  }

  /** A zero byte for each leading one, then the bytes of the number the other digits stand for. */
  ghost function Content(s: seq<byte>): (x: seq<nat>)
    requires Readable(s)
    ensures Digits(256, x)
  {
    var t := Trimmed(s);
    Repeat(0, Ones(t)) + DigitsOf(256, Num(58, Values(Word(t))))
  }

  /** The limit is not looked at when nothing is decoded. */
  predicate Within(n: nat, maxRetLen: int) { n <= maxRetLen || n == 0 }

  ghost function Decoded(s: seq<byte>, maxRetLen: int): (r: Option<seq<nat>>) {
    if Readable(s) && Within(|Content(s)|, maxRetLen) then Some(Content(s)) else None
  }

  lemma {:induction false} DigitsMono(r: nat, u: nat, v: nat)
    requires r >= 2 && u <= v
    ensures |DigitsOf(r, u)| <= |DigitsOf(r, v)|
    decreases v
  {
    hide DigitsOf;
    DigitsZero(r);
    if u > 0 {
      DivLess(v, r);
      DivMono(u, v, r);
      DigitsMono(r, u / r, v / r);
      DigitsStep(r, u);
      DigitsStep(r, v);
    }
  }

  lemma DivMono(u: nat, v: nat, r: nat)
    requires r >= 1 && u <= v
    ensures u / r <= v / r
  {
    var a, b := u / r, v / r;
    assert u == a * r + u % r && v == b * r + v % r;
    if b < a { MulMono(r, b + 1, a); }
  }

  lemma {:induction false} NumPrefix(r: nat, s: seq<nat>, k: nat)
    requires r >= 1 && k <= |s|
    ensures Num(r, s[..k]) <= Num(r, s)
    decreases |s|
  {
    hide Num;
    if k == |s| {
      assert s[..k] == s;
    } else {
      var n := |s| - 1;
      NumPrefix(r, s[..n], k);
      assert s[..n][..k] == s[..k] && s == s[..n] + [s[n]];
      NumSnoc(r, s[..n], s[n]);
      MulMono(Num(r, s[..n]), 1, r);
    }
  }

  /** The digits a decoder has after k characters are never more than it has at the end. */
  lemma EarlyLength(w: seq<byte>, k: nat)
    requires k <= |w| && InAlphabet(w)
    ensures InAlphabet(w[..k])
    ensures |DigitsOf(256, Num(58, Values(w[..k])))| <= |DigitsOf(256, Num(58, Values(w)))|
  {
    hide Num, DigitsOf;
    assert Values(w[..k]) == Values(w)[..k];
    NumPrefix(58, Values(w), k);
    DigitsMono(256, Num(58, Values(w[..k])), Num(58, Values(w)));
  }

  lemma ValuesNext(b: seq<byte>, k: nat)
    requires k < |b| && InAlphabet(b[..k]) && Map58(b[k]) >= 0
    ensures InAlphabet(b[..k + 1]) && Values(b[..k + 1]) == Values(b[..k]) + [Map58(b[k])]
  {
    assert b[..k + 1] == b[..k] + [b[k]];
  }

  /** Room for one more character of a string of n characters. */
  lemma NextDigitFits(s: seq<nat>, d: nat, n: nat)
    requires Digits(58, s) && d < 58 && |s| < n
    ensures Num(58, s + [d]) == 58 * Num(58, s) + d < Pow(256, DecodeSize(n))
  {
    hide Num, Pow;
    NumSnoc(58, s, d);
    NumBound(58, s + [d]);
    PowMono(58, |s| + 1, n);
    DecodeFits(n);
  }

  /** The size the decoder estimates for n characters. */
  function DecodeSize(n: nat): (m: nat) { n * 733 / 1000 + 1 }

  /** The buffer holds, in bytes, the number that the base58 digits v stand for. */
  ghost predicate Holds(buf: seq<nat>, length: nat, v: seq<nat>) {
    Digits(256, buf) && Exact(buf, length) && Num(256, buf) == Num(58, v)
  }

  lemma ZeroBuffer(s: seq<nat>)
    requires forall i :: 0 <= i < |s| ==> s[i] == 0
    ensures Holds(s, 0, Values([]))
  {
    hide Num;
    Empty(256);
    Empty(58);
    assert s + [] == s;
    NumZeros(256, s, []);
  }

  lemma HoldsDigits(buf: seq<nat>, length: nat, v: seq<nat>)
    requires Holds(buf, length, v)
    ensures length <= |buf| && DigitsOf(256, Num(58, v)) == buf[|buf| - length..]
  {
    hide Num, DigitsOf;
    ExactDigits(256, buf, length);
  }

  /** Takes one digit into the buffer. */
  method TakeDigit(b256: array<nat>, length: nat, digit: nat, ghost v: seq<nat>, ghost n: nat) returns (length': nat)
    requires digit < 58 && Digits(58, v) && |v| < n && b256.Length == DecodeSize(n) && Holds(b256[..], length, v)
    modifies b256
    ensures Holds(b256[..], length', v + [digit])
    ensures length' == |DigitsOf(256, Num(58, v + [digit]))|
  {
    hide Num, Pow, DigitsOf;
    NextDigitFits(v, digit, n);
    length' := MulAdd(b256, length, 256, 58, digit);
    HoldsDigits(b256[..], length', v + [digit]);
  }

  /** A word that does not start with a one stands for a positive number. */
  lemma WordPositive(w: seq<byte>)
    requires w != [] && InAlphabet(w) && w[0] != ONE
    ensures DigitsOf(256, Num(58, Values(w))) != []
  {
    hide Num, DigitsOf, Map58;
    Alphabet(0, w[0]);
    NumPositive(58, Values(w));
    DigitsStep(256, Num(58, Values(w)));
  }

  /** The buffer loop of the decoder: the word at the start of b, or a rejection. */
  method DecodeDigits(b: seq<byte>, zeroes: nat, maxRetLen: int) returns (ok: bool, digits: seq<nat>, k: nat)
    requires (zeroes > 0 ==> zeroes <= maxRetLen) && (b != [] ==> b[0] != ONE)
    ensures
      var w := b[..Lead(b, NotSpace)];
      && (ok <==> InAlphabet(w) && Within(zeroes + |DigitsOf(256, Num(58, Values(w)))|, maxRetLen))
      && (ok ==> k == |w| && digits == DigitsOf(256, Num(58, Values(w))))
  {
    hide Num, DigitsOf, Map58, IsSpace, Lead, Holds, Values, DecodeSize;
    var size := DecodeSize(|b|);
    var b256 := new nat[size](_ => 0);
    var length: nat := 0;
    ghost var w := b[..Lead(b, NotSpace)];
    k := 0;
    ZeroBuffer(b256[..]);
    assert b[..0] == [];
    while k < |b| && !IsSpace(b[k])
      invariant 0 <= k <= |w| && InAlphabet(b[..k])
      invariant Holds(b256[..], length, Values(b[..k]))
      invariant Within(zeroes + length, maxRetLen)
    {
      assert k < |w| && w[k] == b[k];
      var carry := Map58(b[k]);
      if carry == -1 {
        return false, [], k;
      }
      ValuesNext(b, k);
      length := TakeDigit(b256, length, carry, Values(b[..k]), |b|);
      k := k + 1;
      if length + zeroes > maxRetLen {
        assert w[..k] == b[..k];
        if InAlphabet(w) { EarlyLength(w, k); }
        WordPositive(b[..k]);
        return false, [], k;
      }
    }
    assert k == |w| && b[..k] == w;
    HoldsDigits(b256[..], length, Values(w));
    return true, b256[size - length..], k;
  }

  method DecodeBase58(str: seq<byte>, maxRetLen: int) returns (r: Option<seq<nat>>)
    ensures r == Decoded(str, maxRetLen)
  {
    hide Num, Pow, DigitsOf, Map58, Lead, Values;
    if 0 in str {
      return None;
    }
    var p := CountLead(str, IsSpace);
    var t := str[p..];
    var zeroes := 0;
    while zeroes < |t| && t[zeroes] == ONE
      invariant 0 <= zeroes <= |t|
      invariant forall i :: 0 <= i < zeroes ==> t[i] == ONE
      invariant zeroes > 0 ==> zeroes <= maxRetLen
    {
      zeroes := zeroes + 1;
      if zeroes > maxRetLen {
        OnesAtLeast(t, zeroes);
        return None;
      }
    }
    LeadIs(t, IsOne, zeroes);
    var b := t[zeroes..];
    var ok, digits, k := DecodeDigits(b, zeroes, maxRetLen);
    if !ok {
      return None;
    }
    var rest := b[k..];
    var spaces := CountLead(rest, IsSpace);
    if spaces < |rest| {
      return None;
    }
    return Some(Repeat(0, zeroes) + digits);
  }

  lemma OnesAtLeast(t: seq<byte>, n: nat)
    requires n <= |t| && forall i :: 0 <= i < n ==> t[i] == ONE
    ensures Ones(t) >= n
  {
    hide Lead;
  }

  /** A loop that skips characters of a kind. */
  method CountLead(s: seq<byte>, p: byte -> bool) returns (n: nat)
    ensures n == Lead(s, p)
  {
    hide Lead;
    n := 0;
    while n < |s| && p(s[n])
      invariant 0 <= n <= |s| && forall i :: 0 <= i < n ==> p(s[i])
    {
      n := n + 1;
    }
    LeadIs(s, p, n);
  }

  /**
  The length limit rejects a readable string exactly when its content is longer, unless the limit is negative and
  the content empty: then nothing looks at the limit.
  */
  lemma LimitExact(s: seq<byte>, maxRetLen: int)
    requires Readable(s)
    ensures (Decoded(s, maxRetLen) == None <==> |Content(s)| > maxRetLen) <==> maxRetLen >= 0 || Content(s) != []
  {
    hide Content, Readable;
  }

  lemma EmptyIgnoresLimit()
    ensures Decoded([], -1) == Some([])
  {
    hide DigitsOf, Num, Trimmed, Ones, Word, After;
    var none: seq<byte> := [];
    PartsOf(0, none);
    assert Repeat(ONE, 0) + none == none;
    Empty(58);
    DigitsZero(256);
  }

  // ------------------------------------------------------------------ round trips

  lemma ValuesOfText(s: seq<nat>)
    requires Digits(58, s)
    ensures InAlphabet(Text(s)) && Values(Text(s)) == s && 0 !in Text(s)
    ensures forall i :: 0 <= i < |s| ==> !IsSpace(Text(s)[i]) && (Text(s)[i] == ONE <==> s[i] == 0)
  {
    hide Char58, Map58;
    forall i | 0 <= i < |s|
      ensures Map58(Text(s)[i]) == s[i] && !IsSpace(Text(s)[i]) && Text(s)[i] != 0
      ensures Text(s)[i] == ONE <==> s[i] == 0
    {
      Alphabet(s[i], Text(s)[i]);
    }
  }

  lemma TextOfValues(t: seq<byte>)
    requires InAlphabet(t)
    ensures Text(Values(t)) == t
    ensures forall i :: 0 <= i < |t| ==> !IsSpace(t[i]) && (t[i] == ONE <==> Values(t)[i] == 0)
  {
    hide Char58, Map58;
    forall i | 0 <= i < |t|
      ensures Text(Values(t))[i] == t[i] && !IsSpace(t[i]) && (t[i] == ONE <==> Values(t)[i] == 0)
    {
      Alphabet(0, t[i]);
    }
  }

  /** The parts of a string that has no space. */
  lemma PartsOf(z: nat, w: seq<byte>)
    requires (forall i :: 0 <= i < |w| ==> !IsSpace(w[i])) && (w != [] ==> w[0] != ONE)
    ensures var t := Repeat(ONE, z) + w; Trimmed(t) == t && Ones(t) == z && Word(t) == w && After(t) == []
  {
    hide Lead;
    var t := Repeat(ONE, z) + w;
    LeadIs(t, IsSpace, 0);
    LeadIs(t, IsOne, z);
    assert t[z..] == w;
    LeadIs(w, NotSpace, |w|);
  }

  /** Decoding an encoding gives the bytes back, exactly if the length limit allows it. */
  lemma DecodeEncode(x: seq<byte>, maxRetLen: int)
    ensures Decoded(Encoded(x), maxRetLen) == if |x| <= maxRetLen || x == [] then Some(x) else None
  {
    hide Num, DigitsOf, Trimmed, Ones, Word, After, Text, Values;
    var z := LeadingZeros(x);
    var d := DigitsOf(58, Num(256, x));
    StripZeros(x, z);
    ValuesOfText(d);
    PartsOf(z, Text(d));
    NumOfDigits(58, Num(256, x));
  }

  /** Encoding what was decoded gives the string back without its surrounding spaces. */
  lemma EncodeDecode(s: seq<byte>, maxRetLen: int)
    requires Decoded(s, maxRetLen).Some?
    ensures
      var x := Decoded(s, maxRetLen).value;
      && (forall i :: 0 <= i < |x| ==> x[i] < 256)
      && s == s[..Lead(s, IsSpace)] + Encoded(x) + After(Trimmed(s))
      && AllSpaces(s[..Lead(s, IsSpace)]) && AllSpaces(After(Trimmed(s)))
  {
    hide Lead, Encoded, Content, Ones, Word, After, Values, InAlphabet, IsSpace;
    var t := Trimmed(s);
    ContentEncodes(s);
    Rebuild(t);
    assert s == s[..Lead(s, IsSpace)] + t;
  }

  /** The content of a string encodes to its ones and its word. */
  lemma ContentEncodes(s: seq<byte>)
    requires Readable(s)
    ensures var t := Trimmed(s); Encoded(Content(s)) == Repeat(ONE, Ones(t)) + Word(t)
  {
    hide Num, DigitsOf, Text, Values, Trimmed, Ones, Word, After, Lead, IsSpace;
    var t := Trimmed(s);
    var z, w := Ones(t), Word(t);
    var v := Values(w);
    TextOfValues(w);
    WordStart(t);
    DigitsOfNum(58, v);
    var d := DigitsOf(256, Num(58, v));
    var x := Repeat(0, z) + d;
    assert x[z..] == d;
    StripZeros(x, z);
    NumOfDigits(256, Num(58, v));
  }

  lemma WordStart(t: seq<byte>)
    ensures Word(t) != [] ==> Word(t)[0] != ONE
  {
    hide Lead;
  }

  lemma Rebuild(t: seq<byte>)
    ensures t == Repeat(ONE, Ones(t)) + Word(t) + After(t)
  {
    hide Lead;
    var b := t[Ones(t)..];
    assert b == Word(t) + After(t);
    assert t[..Ones(t)] == Repeat(ONE, Ones(t));
  }
}
