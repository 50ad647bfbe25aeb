/**
Bech32 and Bech32m strings, src/bech32.cpp: the checksum polynomial, encoding and decoding.

Strings are byte strings.  The symbols of the data part are five-bit values, which the program keeps in bytes.
*/
module Bech32 {
  import opened Common

  datatype Encoding = BECH32 | BECH32M

  datatype DecodeResult = Invalid | Decoded(encoding: Encoding, hrp: seq<bv8>, data: seq<bv5>)

  // ------------------------------------------------------------------ character set

  /** CHARSET: "qpzry9x8gf2tvdw0s3jn54khce6mua7l", as byte values. */
  function Charset(v: bv5): (c: bv8) {
    if v == 0 then 113
    else if v == 1 then 112
    else if v == 2 then 122
    else if v == 3 then 114
    else if v == 4 then 121
    else if v == 5 then 57
    else if v == 6 then 120
    else if v == 7 then 56
    else if v == 8 then 103
    else if v == 9 then 102
    else if v == 10 then 50
    else if v == 11 then 116
    else if v == 12 then 118
    else if v == 13 then 100
    else if v == 14 then 119
    else if v == 15 then 48
    else if v == 16 then 115
    else if v == 17 then 51
    else if v == 18 then 106
    else if v == 19 then 110
    else if v == 20 then 53
    else if v == 21 then 52
    else if v == 22 then 107
    else if v == 23 then 104
    else if v == 24 then 99
    else if v == 25 then 101
    else if v == 26 then 54
    else if v == 27 then 109
    else if v == 28 then 117
    else if v == 29 then 97
    else if v == 30 then 55
    else 108
  }

  /** CHARSET_REV on lower-case letters and digits; its upper-case half repeats the lower-case one. */
  function RevLower(c: bv8): (v: Option<bv5>) {
    if c == 48 then Some(15)
    else if c == 50 then Some(10)
    else if c == 51 then Some(17)
    else if c == 52 then Some(21)
    else if c == 53 then Some(20)
    else if c == 54 then Some(26)
    else if c == 55 then Some(30)
    else if c == 56 then Some(7)
    else if c == 57 then Some(5)
    else if c == 97 then Some(29)
    else if c == 99 then Some(24)
    else if c == 100 then Some(13)
    else if c == 101 then Some(25)
    else if c == 102 then Some(9)
    else if c == 103 then Some(8)
    else if c == 104 then Some(23)
    else if c == 106 then Some(18)
    else if c == 107 then Some(22)
    else if c == 108 then Some(31)
    else if c == 109 then Some(27)
    else if c == 110 then Some(19)
    else if c == 112 then Some(1)
    else if c == 113 then Some(0)
    else if c == 114 then Some(3)
    else if c == 115 then Some(16)
    else if c == 116 then Some(11)
    else if c == 117 then Some(28)
    else if c == 118 then Some(12)
    else if c == 119 then Some(14)
    else if c == 120 then Some(6)
    else if c == 121 then Some(4)
    else if c == 122 then Some(2)
    else None
  }

  predicate IsLower(c: bv8) { 97 <= c <= 122 }

  predicate IsUpper(c: bv8) { 65 <= c <= 90 }

  function LowerCase(c: bv8): (d: bv8) { if IsUpper(c) then c - 65 + 97 else c }

  function CharsetRev(c: bv8): (v: Option<bv5>) { RevLower(LowerCase(c)) }

  const ONE: bv8 := 49

  lemma CharsetKinds(v: bv5)
    ensures Charset(v) != ONE && !IsUpper(Charset(v)) && 33 <= Charset(v) <= 126
  {}

  lemma CharsetInverse(v: bv5)
    ensures RevLower(Charset(v)) == Some(v)
  {}

  lemma CharsetFacts(v: bv5)
    ensures CharsetRev(Charset(v)) == Some(v)
    ensures Charset(v) != ONE && !IsUpper(Charset(v)) && 33 <= Charset(v) <= 126
  {
    hide Charset, RevLower;
    CharsetKinds(v);
    CharsetInverse(v);
  }

  lemma RevFacts(c: bv8)
    ensures CharsetRev(c).Some? ==> Charset(CharsetRev(c).value) == LowerCase(c)
  {}

  // ------------------------------------------------------------------ the checksum step

  // Exclusive or, kept as a function so that proofs above the bit level work with its laws.

  function Xor(a: bv32, b: bv32): bv32 { a ^ b }

  function Xor5(a: bv5, b: bv5): bv5 { a ^ b }

  lemma XorAssoc(a: bv32, b: bv32, c: bv32)
    ensures Xor(Xor(a, b), c) == Xor(a, Xor(b, c))
  {}

  lemma XorComm(a: bv32, b: bv32)
    ensures Xor(a, b) == Xor(b, a)
  {}

  lemma Interchange(a: bv32, b: bv32, c: bv32, d: bv32)
    ensures Xor(Xor(a, b), Xor(c, d)) == Xor(Xor(a, c), Xor(b, d))
  {
    hide Xor;
    XorAssoc(a, b, Xor(c, d));
    XorAssoc(b, c, d);
    XorComm(b, c);
    XorAssoc(c, b, d);
    XorAssoc(a, c, Xor(b, d));
  }

  lemma XorSelf(a: bv32, b: bv32)
    ensures Xor(a, a) == 0 && Xor(a, 0) == a && Xor(0, a) == a
    ensures Xor(a, b) == 0 <==> a == b
    ensures Xor(a, Xor(a, b)) == b
  {}

  lemma Xor5Self(a: bv5, b: bv5)
    ensures Xor5(a, 0) == a && Xor5(0, a) == a
    ensures Xor5(a, b) == 0 <==> a == b
  {}

  /** The coefficient c0 of the state. */
  function Top(c: bv32): bv5 { ((c >> 25) & 31) as bv5 }

  // The multiples of k(x) that the bits of c0 add.

  function K0(c0: bv5): bv32 { if c0 & 1 != 0 then 0x3b6a57b2 else 0 }

  function K1(c0: bv5): bv32 { if c0 & 2 != 0 then 0x26508e6d else 0 }

  function K2(c0: bv5): bv32 { if c0 & 4 != 0 then 0x1ea119fa else 0 }

  function K3(c0: bv5): bv32 { if c0 & 8 != 0 then 0x3d4233dd else 0 }

  function K4(c0: bv5): bv32 { if c0 & 16 != 0 then 0x2a1462b3 else 0 }

  /** c0 * k(x). */
  function Feedback(c0: bv5): bv32 {
    Xor(Xor(Xor(Xor(K0(c0), K1(c0)), K2(c0)), K3(c0)), K4(c0))
  }

  function Shifted(c: bv32): bv32 { (c & 0x1ffffff) << 5 }

  function Wide(v: bv5): bv32 { v as bv32 }

  /** One round of the PolyMod loop. */
  function Step(c: bv32, v: bv5): (d: bv32) {
    Xor(Xor(Shifted(c), Wide(v)), Feedback(Top(c)))
  }

  lemma TermsLinear(a: bv5, b: bv5)
    ensures K0(Xor5(a, b)) == Xor(K0(a), K0(b)) && K1(Xor5(a, b)) == Xor(K1(a), K1(b))
    ensures K2(Xor5(a, b)) == Xor(K2(a), K2(b)) && K3(Xor5(a, b)) == Xor(K3(a), K3(b))
    ensures K4(Xor5(a, b)) == Xor(K4(a), K4(b))
  {
    assert K0(a ^ b) == K0(a) ^ K0(b);
    assert K1(a ^ b) == K1(a) ^ K1(b);
    assert K2(a ^ b) == K2(a) ^ K2(b);
    assert K3(a ^ b) == K3(a) ^ K3(b);
    assert K4(a ^ b) == K4(a) ^ K4(b);
  }

  lemma FeedbackLinear(a: bv5, b: bv5)
    ensures Feedback(Xor5(a, b)) == Xor(Feedback(a), Feedback(b))
  {
    hide Xor, Xor5, K0, K1, K2, K3, K4;
    TermsLinear(a, b);
    var f, g := Xor(K0(a), K1(a)), Xor(K0(b), K1(b));
    Interchange(K0(a), K0(b), K1(a), K1(b));
    Interchange(f, g, K2(a), K2(b));
    Interchange(Xor(f, K2(a)), Xor(g, K2(b)), K3(a), K3(b));
    Interchange(Xor(Xor(f, K2(a)), K3(a)), Xor(Xor(g, K2(b)), K3(b)), K4(a), K4(b));
  }

  lemma PartsLinear(c: bv32, d: bv32, v: bv5, w: bv5)
    ensures Top(Xor(c, d)) == Xor5(Top(c), Top(d))
    ensures Shifted(Xor(c, d)) == Xor(Shifted(c), Shifted(d))
    ensures Wide(Xor5(v, w)) == Xor(Wide(v), Wide(w))
  {}

  /** The step is linear. */
  lemma StepLinear(c: bv32, d: bv32, v: bv5, w: bv5)
    ensures Step(Xor(c, d), Xor5(v, w)) == Xor(Step(c, v), Step(d, w))
  {
    hide Feedback, Shifted, Top, Wide, Xor, Xor5;
    PartsLinear(c, d, v, w);
    FeedbackLinear(Top(c), Top(d));
    Interchange(Shifted(c), Shifted(d), Wide(v), Wide(w));
    Interchange(Xor(Shifted(c), Wide(v)), Xor(Shifted(d), Wide(w)), Feedback(Top(c)), Feedback(Top(d)));
  }

  /** A state of thirty bits stays one. */
  lemma StepBound(c: bv32, v: bv5)
    ensures c <= 0x3fffffff ==> Step(c, v) <= 0x3fffffff
  {}

  /** The step is injective: only the zero state leads to the zero state. */
  lemma StepInjective(c: bv32)
    requires 0 < c <= 0x3fffffff
    ensures Step(c, 0) != 0
  {}

  lemma StepZero()
    ensures Step(0, 0) == 0
  {}

  // ------------------------------------------------------------------ the checksum polynomial

  /** The state after the symbols v, starting from c. */
  function Poly(c: bv32, v: seq<bv5>): (d: bv32)
    decreases |v|
  {
    if v == [] then c else Poly(Step(c, v[0]), v[1..])
  }

  method PolyMod(v: seq<bv5>) returns (c: bv32)
    ensures c == Poly(1, v)
  {
    hide Step;
    c := 1;
    var i := 0;
    while i < |v|
      invariant 0 <= i <= |v|
      invariant Poly(c, v[i..]) == Poly(1, v)
    {
      assert v[i..][1..] == v[i + 1..];
      c := Step(c, v[i]);
      i := i + 1;
    }
  }

  function XorAll(u: seq<bv5>, w: seq<bv5>): (x: seq<bv5>)
    requires |u| == |w|
    ensures |x| == |u|
    ensures forall i :: 0 <= i < |u| ==> x[i] == Xor5(u[i], w[i])
  {
    seq(|u|, i requires 0 <= i < |u| => Xor5(u[i], w[i]))
  }

  predicate AllZero(v: seq<bv5>) { forall i :: 0 <= i < |v| ==> v[i] == 0 }

  lemma {:induction false} PolyLinear(c: bv32, d: bv32, u: seq<bv5>, w: seq<bv5>)
    requires |u| == |w|
    ensures Poly(Xor(c, d), XorAll(u, w)) == Xor(Poly(c, u), Poly(d, w))
    decreases |u|
  {
    hide Step, Xor, Xor5;
    if u != [] {
      StepLinear(c, d, u[0], w[0]);
      PolyLinear(Step(c, u[0]), Step(d, w[0]), u[1..], w[1..]);
      assert XorAll(u, w)[1..] == XorAll(u[1..], w[1..]);
    }
  }

  lemma {:induction false} PolyConcat(c: bv32, u: seq<bv5>, w: seq<bv5>)
    ensures Poly(c, u + w) == Poly(Poly(c, u), w)
    decreases |u|
  {
    hide Step;
    if u == [] {
      assert u + w == w;
    } else {
      PolyConcat(Step(c, u[0]), u[1..], w);
      assert (u + w)[1..] == u[1..] + w;
    }
  }

  lemma {:induction false} PolyBound(c: bv32, v: seq<bv5>)
    requires c <= 0x3fffffff
    ensures Poly(c, v) <= 0x3fffffff
    decreases |v|
  {
    hide Step;
    if v != [] {
      StepBound(c, v[0]);
      PolyBound(Step(c, v[0]), v[1..]);
    }
  }

  /** Zero symbols keep a zero state zero and a nonzero state nonzero. */
  lemma {:induction false} PolyZeros(c: bv32, v: seq<bv5>)
    requires c <= 0x3fffffff && AllZero(v)
    ensures Poly(c, v) == 0 <==> c == 0
    decreases |v|
  {
    hide Step;
    if v != [] {
      StepBound(c, 0);
      StepZero();
      if c != 0 { StepInjective(c); }
      PolyZeros(Step(c, 0), v[1..]);
    }
  }

  /** Six symbols packed into thirty bits, the earliest on top. */
  function Pack(a: bv5, b: bv5, c: bv5, d: bv5, e: bv5, f: bv5): bv32 {
    (Wide(a) << 25) | (Wide(b) << 20) | (Wide(c) << 15) | (Wide(d) << 10) | (Wide(e) << 5) | Wide(f)
  }

  /** Six steps from the zero state only collect the symbols. */
  lemma SixSteps(a: bv5, b: bv5, c: bv5, d: bv5, e: bv5, f: bv5)
    ensures Step(Step(Step(Step(Step(Step(0, a), b), c), d), e), f) == Pack(a, b, c, d, e, f)
  {}

  lemma PolyStep(c: bv32, v: seq<bv5>)
    requires v != []
    ensures Poly(c, v) == Poly(Step(c, v[0]), v[1..])
  {}

  function PackAll(x: seq<bv5>): bv32
    requires |x| == 6
  {
    Pack(x[0], x[1], x[2], x[3], x[4], x[5])
  }

  lemma PolySix(x: seq<bv5>)
    requires |x| == 6
    ensures Poly(0, x) == PackAll(x)
  {
    hide Step, Pack;
    SixSteps(x[0], x[1], x[2], x[3], x[4], x[5]);
    var c1 := Step(0, x[0]);
    var c2 := Step(c1, x[1]);
    var c3 := Step(c2, x[2]);
    var c4 := Step(c3, x[3]);
    var c5 := Step(c4, x[4]);
    PolyStep(0, x);
    PolyStep(c1, x[1..]);
    PolyStep(c2, x[1..][1..]);
    PolyStep(c3, x[1..][1..][1..]);
    PolyStep(c4, x[1..][1..][1..][1..]);
    PolyStep(c5, x[1..][1..][1..][1..][1..]);
  }

  lemma PackZero(a: bv5, b: bv5, c: bv5, d: bv5, e: bv5, f: bv5)
    ensures Pack(a, b, c, d, e, f) <= 0x3fffffff
    ensures Pack(a, b, c, d, e, f) == 0 <==> a == b == c == d == e == f == 0
  {}

  /** A change of at most six consecutive symbols, at least one of them really changed, shows in the state. */
  lemma WindowShows(x: seq<bv5>)
    requires |x| <= 6 && !AllZero(x)
    ensures 0 < Poly(0, x) <= 0x3fffffff
  {
    hide Poly, Pack;
    var z := seq(6 - |x|, _ => 0 as bv5);
    var y := z + x;
    PolyZeros(0, z);
    PolyConcat(0, z, x);
    PolySix(y);
    PackZero(y[0], y[1], y[2], y[3], y[4], y[5]);
    var i :| 0 <= i < |x| && x[i] != 0;
    assert y[6 - |x| + i] != 0;
  }

  /** u and w differ, and only within six consecutive symbols from k on. */
  predicate Burst(u: seq<bv5>, w: seq<bv5>, k: nat) {
    && |u| == |w| && u != w
    && forall i :: 0 <= i < |u| && !(k <= i < k + 6) ==> u[i] == w[i]
  }

  /** A nonzero change confined to six consecutive symbols leads to a nonzero state. */
  lemma ConfinedShows(x: seq<bv5>, k: nat)
    requires !AllZero(x) && forall i :: 0 <= i < |x| && !(k <= i < k + 6) ==> x[i] == 0
    ensures Poly(0, x) != 0
  {
    hide Poly;
    var e := if k + 6 <= |x| then k + 6 else |x|;
    var j :| 0 <= j < |x| && x[j] != 0;
    var b := x[k..e];
    assert b[j - k] == x[j];
    var a, z := x[..k], x[e..];
    assert x == a + b + z;
    forall i | 0 <= i < |a| ensures a[i] == 0 { assert x[i] == 0; }
    forall i | 0 <= i < |z| ensures z[i] == 0 { assert x[e + i] == 0; }
    PartsShow(a, b, z);
  }

  lemma PartsShow(a: seq<bv5>, b: seq<bv5>, z: seq<bv5>)
    requires AllZero(a) && AllZero(z) && |b| <= 6 && !AllZero(b)
    ensures Poly(0, a + b + z) != 0
  {
    hide Poly, AllZero;
    PolyConcat(0, a + b, z);
    PolyConcat(0, a, b);
    PolyZeros(0, a);
    WindowShows(b);
    PolyZeros(Poly(0, b), z);
  }

  /** Two symbol strings that differ in a burst never have the same checksum state. */
  lemma BurstShows(c: bv32, u: seq<bv5>, w: seq<bv5>, k: nat)
    requires Burst(u, w, k)
    ensures Poly(c, u) != Poly(c, w)
  {
    hide Poly, Xor, Xor5;
    var x := XorAll(u, w);
    forall i | 0 <= i < |u|
      ensures x[i] == 0 <==> u[i] == w[i]
    {
      Xor5Self(u[i], w[i]);
    }
    ConfinedShows(x, k);
    XorSelf(c, c);
    PolyLinear(c, c, u, w);
    XorSelf(Poly(c, u), Poly(c, w));
  }

  // ------------------------------------------------------------------ checksums

  function EncodingConstant(e: Encoding): (k: bv32)
    ensures k <= 0x3fffffff
  {
    if e == BECH32 then 1 else 0x2bc830a3
  }

  function High(c: bv8): bv5 { (c >> 5) as bv5 }

  function Low(c: bv8): bv5 { (c & 0x1f) as bv5 }

  ghost function Expand(hrp: seq<bv8>): (x: seq<bv5>) {
    seq(|hrp|, i requires 0 <= i < |hrp| => High(hrp[i])) + [0]
      + seq(|hrp|, i requires 0 <= i < |hrp| => Low(hrp[i]))
  }

  method ExpandHRP(hrp: seq<bv8>) returns (x: seq<bv5>)
    ensures x == Expand(hrp)
  {
    hide High, Low;
    var n := |hrp|;
    var ret := new bv5[n * 2 + 1];
    var i := 0;
    while i < n
      invariant 0 <= i <= n
      invariant forall j :: 0 <= j < i ==> ret[j] == High(hrp[j]) && ret[j + n + 1] == Low(hrp[j])
    {
      ret[i] := High(hrp[i]);
      ret[i + n + 1] := Low(hrp[i]);
      i := i + 1;
    }
    ret[n] := 0;
    x := ret[..];
  }

  /** The prefix is recoverable from its expansion. */
  lemma ExpandInjective(a: seq<bv8>, b: seq<bv8>)
    requires Expand(a) == Expand(b)
    ensures a == b
  {
    assert |Expand(a)| == 2 * |a| + 1 && |Expand(b)| == 2 * |b| + 1;
    forall i | 0 <= i < |a|
      ensures a[i] == b[i]
    {
      assert Expand(a)[i] == High(a[i]) && Expand(a)[|a| + 1 + i] == Low(a[i]);
      assert Expand(b)[i] == High(b[i]) && Expand(b)[|a| + 1 + i] == Low(b[i]);
      HighLow(a[i], b[i]);
    }
  }

  lemma HighLow(c: bv8, d: bv8)
    ensures High(c) == High(d) && Low(c) == Low(d) ==> c == d
  {}

  /** The variant whose constant the checksum state equals. */
  ghost function Verify(hrp: seq<bv8>, values: seq<bv5>): (e: Option<Encoding>) {
    var check := Poly(1, Expand(hrp) + values);
    if check == EncodingConstant(BECH32) then Some(BECH32)
    else if check == EncodingConstant(BECH32M) then Some(BECH32M)
    else None
  }

  method VerifyChecksum(hrp: seq<bv8>, values: seq<bv5>) returns (e: Option<Encoding>)
    ensures e == Verify(hrp, values)
  {
    var expanded := ExpandHRP(hrp);
    var check := PolyMod(expanded + values);
    if check == EncodingConstant(BECH32) { return Some(BECH32); }
    if check == EncodingConstant(BECH32M) { return Some(BECH32M); }
    return None;
  }

  lemma VerifyIs(hrp: seq<bv8>, values: seq<bv5>, e: Encoding)
    ensures Verify(hrp, values) == Some(e) <==> Poly(1, Expand(hrp) + values) == EncodingConstant(e)
  {
    hide Poly, Expand;
  }

  /** A nonzero change within six consecutive data symbols never verifies under the same variant. */
  lemma BurstDetected(hrp: seq<bv8>, u: seq<bv5>, w: seq<bv5>, k: nat, e: Encoding)
    requires Burst(u, w, k) && Verify(hrp, u) == Some(e)
    ensures Verify(hrp, w) != Some(e)
  {
    hide Poly, Expand, Verify;
    VerifyIs(hrp, u, e);
    VerifyIs(hrp, w, e);
    PolyConcat(1, Expand(hrp), u);
    PolyConcat(1, Expand(hrp), w);
    BurstShows(Poly(1, Expand(hrp)), u, w, k);
  }

  /** Group i of the six five-bit groups of m. */
  function Group(m: bv32, i: nat): (v: bv5)
    requires i < 6
  {
    if i == 0 then ((m >> 25) & 31) as bv5
    else if i == 1 then ((m >> 20) & 31) as bv5
    else if i == 2 then ((m >> 15) & 31) as bv5
    else if i == 3 then ((m >> 10) & 31) as bv5
    else if i == 4 then ((m >> 5) & 31) as bv5
    else (m & 31) as bv5
  }

  function Groups(m: bv32): (x: seq<bv5>)
    ensures |x| == 6
  {
    [Group(m, 0), Group(m, 1), Group(m, 2), Group(m, 3), Group(m, 4), Group(m, 5)]
  }

  lemma PackGroups(m: bv32)
    requires m <= 0x3fffffff
    ensures PackAll(Groups(m)) == m
  {}

  lemma GroupsOfPack(a: bv5, b: bv5, c: bv5, d: bv5, e: bv5, f: bv5)
    ensures Groups(Pack(a, b, c, d, e, f)) == [a, b, c, d, e, f]
  {}

  function SixZeros(): (z: seq<bv5>)
    ensures |z| == 6 && AllZero(z)
  {
    [0, 0, 0, 0, 0, 0]
  }

  ghost function Checksum(e: Encoding, hrp: seq<bv8>, values: seq<bv5>): (x: seq<bv5>)
    ensures |x| == 6
  {
    Groups(Xor(Poly(1, Expand(hrp) + values + SixZeros()), EncodingConstant(e)))
  }

  method CreateChecksum(e: Encoding, hrp: seq<bv8>, values: seq<bv5>) returns (x: seq<bv5>)
    ensures x == Checksum(e, hrp, values)
  {
    hide Group, Xor;
    var expanded := ExpandHRP(hrp);
    var state := PolyMod(expanded + values + SixZeros());
    var mod := Xor(state, EncodingConstant(e));
    var ret := new bv5[6];
    var i := 0;
    while i < 6
      invariant 0 <= i <= 6
      invariant forall j :: 0 <= j < i ==> ret[j] == Group(mod, j)
    {
      ret[i] := Group(mod, i);
      i := i + 1;
    }
    assert ret[..] == Groups(mod);
    return ret[..];
  }

  /** What six final symbols do to the state: they are added to what six zeros would leave. */
  lemma LastSix(c: bv32, x: seq<bv5>)
    requires |x| == 6
    ensures Poly(c, x) == Xor(Poly(c, SixZeros()), PackAll(x))
  {
    hide Poly, Xor, Xor5, Pack;
    var z := SixZeros();
    PolyLinear(c, 0, z, x);
    XorSelf(c, 0);
    forall i | 0 <= i < 6
      ensures XorAll(z, x)[i] == x[i]
    {
      Xor5Self(x[i], 0);
    }
    assert XorAll(z, x) == x;
    PolySix(x);
  }

  /** The checksum is the only one that verifies. */
  lemma ChecksumExact(e: Encoding, hrp: seq<bv8>, values: seq<bv5>, x: seq<bv5>)
    requires |x| == 6
    ensures Verify(hrp, values + x) == Some(e) <==> x == Checksum(e, hrp, values)
  {
    hide Poly, Xor, Pack, Expand, Verify, Group;
    var enc, z, k := Expand(hrp) + values, SixZeros(), EncodingConstant(e);
    var c := Poly(1, enc);
    assert Expand(hrp) + (values + x) == enc + x;
    PolyConcat(1, enc, x);
    PolyConcat(1, enc, z);
    LastSix(c, x);
    VerifyIs(hrp, values + x, e);
    var s := Poly(c, z);
    PolyBound(1, enc + z);
    XorBound(s, k);
    PackGroups(Xor(s, k));
    GroupsOfPack(x[0], x[1], x[2], x[3], x[4], x[5]);
    assert x == [x[0], x[1], x[2], x[3], x[4], x[5]];
    XorSelf(s, PackAll(x));
    XorSelf(s, k);
  }

  lemma XorBound(a: bv32, b: bv32)
    requires a <= 0x3fffffff && b <= 0x3fffffff
    ensures Xor(a, b) <= 0x3fffffff
  {}

  // ------------------------------------------------------------------ encoding

  predicate NoUpper(s: seq<bv8>) { forall i :: 0 <= i < |s| ==> !IsUpper(s[i]) }

  predicate NoLower(s: seq<bv8>) { forall i :: 0 <= i < |s| ==> !IsLower(s[i]) }

  predicate Printable(s: seq<bv8>) { forall i :: 0 <= i < |s| ==> 33 <= s[i] <= 126 }

  ghost function Text(v: seq<bv5>): (s: seq<bv8>)
    ensures |s| == |v| && forall i :: 0 <= i < |v| ==> s[i] == Charset(v[i])
  {
    seq(|v|, i requires 0 <= i < |v| => Charset(v[i]))
  }

  ghost function Encoded(e: Encoding, hrp: seq<bv8>, values: seq<bv5>): (s: seq<bv8>) {
    hrp + [ONE] + Text(values + Checksum(e, hrp, values))
  }

  /** The program asserts that the prefix has no upper-case letter. */
  method Encode(e: Encoding, hrp: seq<bv8>, values: seq<bv5>) returns (ret: seq<bv8>)
    requires NoUpper(hrp)
    ensures ret == Encoded(e, hrp, values)
  {
    hide Charset, Checksum;
    var i := 0;
    while i < |hrp|
      invariant 0 <= i <= |hrp|
    {
      assert hrp[i] < 65 || hrp[i] > 90;
      i := i + 1;
    }
    var checksum := CreateChecksum(e, hrp, values);
    var combined := values + checksum;
    ret := hrp + [ONE];
    i := 0;
    while i < |combined|
      invariant 0 <= i <= |combined|
      invariant ret == hrp + [ONE] + Text(combined[..i])
    {
      ret := ret + [Charset(combined[i])];
      assert Text(combined[..i + 1]) == Text(combined[..i]) + [Charset(combined[i])];
      i := i + 1;
    }
    assert combined[..i] == combined;
  }

  // ------------------------------------------------------------------ decoding

  /** rfind('1'), with -1 for no occurrence. */
  function LastOne(s: seq<bv8>): (p: int)
    ensures -1 <= p < |s|
    ensures p >= 0 ==> s[p] == ONE
    ensures forall i :: p < i < |s| ==> s[i] != ONE
  {
    if s == [] then -1 else if s[|s| - 1] == ONE then |s| - 1 else LastOne(s[..|s| - 1])
  }

  ghost function LowerAll(s: seq<bv8>): (t: seq<bv8>)
    ensures |t| == |s| && forall i :: 0 <= i < |s| ==> t[i] == LowerCase(s[i])
  {
    seq(|s|, i requires 0 <= i < |s| => LowerCase(s[i]))
  }

  predicate AllSymbols(s: seq<bv8>) { forall i :: 0 <= i < |s| ==> CharsetRev(s[i]).Some? }

  ghost function Values(s: seq<bv8>): (v: seq<bv5>)
    requires AllSymbols(s)
    ensures |v| == |s| && forall i :: 0 <= i < |s| ==> CharsetRev(s[i]) == Some(v[i])
  {
    seq(|s|, i requires 0 <= i < |s| => CharsetRev(s[i]).value)
  }

  /** The tests before the checksum. */
  ghost predicate WellFormed(str: seq<bv8>, extLength: bool) {
    && Printable(str)
    && (NoUpper(str) || NoLower(str))
    && (|str| <= 90 || extLength)
    && LastOne(str) > 0 && LastOne(str) + 7 <= |str|
    && AllSymbols(str[LastOne(str) + 1..])
  }

  ghost function DecodeOf(str: seq<bv8>, extLength: bool): (r: DecodeResult) {
    if !WellFormed(str, extLength) then Invalid
    else
      var pos := LastOne(str);
      var hrp, values := LowerAll(str[..pos]), Values(str[pos + 1..]);
      match Verify(hrp, values)
      case None => Invalid
      case Some(e) => Decoded(e, hrp, values[..|values| - 6])
  }

  /** The first loop of Decode: no unprintable byte and no mixture of cases. */
  method CheckCase(str: seq<bv8>) returns (ok: bool)
    ensures ok <==> Printable(str) && (NoUpper(str) || NoLower(str))
  {
    var lower, upper := false, false;
    var i := 0;
    while i < |str|
      invariant 0 <= i <= |str|
      invariant Printable(str[..i])
      invariant lower <==> !NoLower(str[..i])
      invariant upper <==> !NoUpper(str[..i])
    {
      var c := str[i];
      assert str[..i + 1] == str[..i] + [c];
      KeepsSeen(str[..i], c);
      if IsLower(c) {
        lower := true;
      } else if IsUpper(c) {
        upper := true;
      } else if c < 33 || c > 126 {
        return false;
      }
      i := i + 1;
    }
    assert str[..i] == str;
    return !(lower && upper);
  }

  lemma KeepsSeen(s: seq<bv8>, c: bv8)
    ensures NoLower(s + [c]) <==> NoLower(s) && !IsLower(c)
    ensures NoUpper(s + [c]) <==> NoUpper(s) && !IsUpper(c)
  {
    assert (s + [c])[|s|] == c;
    assert forall i :: 0 <= i < |s| ==> (s + [c])[i] == s[i];
  }

  /** The loop over the data part. */
  method ReadSymbols(tail: seq<bv8>) returns (values: Option<seq<bv5>>)
    ensures values == if AllSymbols(tail) then Some(Values(tail)) else None
  {
    hide CharsetRev;
    var out := new bv5[|tail|];
    var i := 0;
    while i < |tail|
      invariant 0 <= i <= |tail|
      invariant forall j :: 0 <= j < i ==> CharsetRev(tail[j]) == Some(out[j])
    {
      var rev := CharsetRev(tail[i]);
      if rev == None {
        return None;
      }
      out[i] := rev.value;
      i := i + 1;
    }
    assert out[..] == Values(tail);
    return Some(out[..]);
  }

  method Decode(str: seq<bv8>, extLength: bool) returns (r: DecodeResult)
    ensures r == DecodeOf(str, extLength)
  {
    hide CharsetRev, Printable, NoUpper, NoLower, AllSymbols, Verify, LowerCase;
    var ok := CheckCase(str);
    if !ok {
      return Invalid;
    }
    var pos := LastOne(str);
    if (|str| > 90 && !extLength) || pos == -1 || pos == 0 || pos + 7 > |str| {
      return Invalid;
    }
    var values := ReadSymbols(str[pos + 1..]);
    if values == None {
      return Invalid;
    }
    var hrp := [];
    var i := 0;
    while i < pos
      invariant 0 <= i <= pos
      invariant hrp == LowerAll(str[..pos])[..i]
    {
      hrp := hrp + [LowerCase(str[i])];
      i := i + 1;
    }
    assert hrp == LowerAll(str[..pos]);
    var result := VerifyChecksum(hrp, values.value);
    if result == None {
      return Invalid;
    }
    return Decoded(result.value, hrp, values.value[..|values.value| - 6]);
  }

  // ------------------------------------------------------------------ round trips

  /** The prefixes and lengths that survive: a nonempty printable prefix, and at most 90 characters unless extended. */
  predicate Transmissible(hrp: seq<bv8>, values: seq<bv5>, extLength: bool) {
    hrp != [] && Printable(hrp) && (|hrp| + 1 + |values| + 6 <= 90 || extLength)
  }

  /** The data part of an encoding reads back as the symbols it was written from. */
  lemma TextReads(v: seq<bv5>)
    ensures NoUpper(Text(v)) && Printable(Text(v))
    ensures AllSymbols(Text(v)) && Values(Text(v)) == v
    ensures forall i :: 0 <= i < |v| ==> Text(v)[i] != ONE
  {
    hide Charset, CharsetRev;
    forall i | 0 <= i < |v|
      ensures CharsetRev(Text(v)[i]) == Some(v[i])
      ensures Text(v)[i] != ONE && !IsUpper(Text(v)[i]) && 33 <= Text(v)[i] <= 126
    {
      CharsetFacts(v[i]);
    }
  }

  lemma SeparatorIs(hrp: seq<bv8>, t: seq<bv8>)
    requires forall i :: 0 <= i < |t| ==> t[i] != ONE
    ensures LastOne(hrp + [ONE] + t) == |hrp|
  {
    hide LastOne;
    var s := hrp + [ONE] + t;
    var p := LastOne(s);
    assert s[|hrp|] == ONE;
  }

  lemma LowerAlready(s: seq<bv8>)
    requires NoUpper(s)
    ensures LowerAll(s) == s
  {}

  lemma JoinKinds(hrp: seq<bv8>, t: seq<bv8>)
    requires NoUpper(t) && Printable(t)
    ensures NoUpper(hrp + [ONE] + t) <==> NoUpper(hrp)
    ensures Printable(hrp + [ONE] + t) <==> Printable(hrp)
  {
    var s := hrp + [ONE] + t;
    assert forall i :: 0 <= i < |hrp| ==> s[i] == hrp[i];
    assert s[|hrp|] == ONE;
    assert forall i :: |hrp| < i < |s| ==> s[i] == t[i - |hrp| - 1];
  }

  /** Decoding an encoding returns the variant, prefix and data it was made from, exactly if they are transmissible. */
  lemma RoundTrip(e: Encoding, hrp: seq<bv8>, values: seq<bv5>, extLength: bool)
    requires NoUpper(hrp)
    ensures DecodeOf(Encoded(e, hrp, values), extLength) ==
      if Transmissible(hrp, values, extLength) then Decoded(e, hrp, values) else Invalid
  {
    hide Text, Checksum, Verify, NoUpper, NoLower, Printable, AllSymbols, Values, LowerAll;
    var x := Checksum(e, hrp, values);
    var t := Text(values + x);
    var str := Encoded(e, hrp, values);
    TextReads(values + x);
    SeparatorIs(hrp, t);
    JoinKinds(hrp, t);
    assert str[..|hrp|] == hrp && str[|hrp| + 1..] == t;
    LowerAlready(hrp);
    ChecksumExact(e, hrp, values, x);
    assert (values + x)[..|values|] == values;
  }

  /** Encoding what was decoded gives the string back in lower case. */
  lemma Reencode(str: seq<bv8>, extLength: bool)
    requires DecodeOf(str, extLength).Decoded?
    ensures
      var r := DecodeOf(str, extLength);
      NoUpper(r.hrp) && Encoded(r.encoding, r.hrp, r.data) == LowerAll(str)
  {
    hide Checksum, Verify, Text, Values, LowerAll, AllSymbols, Printable, NoUpper, NoLower;
    var pos := LastOne(str);
    var hrp, tail := LowerAll(str[..pos]), str[pos + 1..];
    var values := Values(tail);
    var n := |values| - 6;
    var r := DecodeOf(str, extLength);
    assert values == values[..n] + values[n..];
    ChecksumExact(r.encoding, hrp, values[..n], values[n..]);
    TextOfValues(tail);
    assert str == str[..pos] + [ONE] + tail;
    LowerJoin(str[..pos], tail);
    LowerHasNoUpper(str[..pos]);
  }

  /** Reading symbols and writing them again lowers the case. */
  lemma TextOfValues(tail: seq<bv8>)
    requires AllSymbols(tail)
    ensures Text(Values(tail)) == LowerAll(tail)
  {
    hide Charset, CharsetRev, LowerCase;
    forall i | 0 <= i < |tail|
      ensures Text(Values(tail))[i] == LowerCase(tail[i])
    {
      RevFacts(tail[i]);
    }
  }

  lemma LowerJoin(a: seq<bv8>, b: seq<bv8>)
    ensures LowerAll(a + [ONE] + b) == LowerAll(a) + [ONE] + LowerAll(b)
  {
    assert LowerCase(ONE) == ONE;
    hide LowerCase;
    var s := a + [ONE] + b;
    assert forall i :: 0 <= i < |s| ==> LowerAll(s)[i] == (LowerAll(a) + [ONE] + LowerAll(b))[i];
  }

  lemma LowerHasNoUpper(s: seq<bv8>)
    ensures NoUpper(LowerAll(s))
  {}
}
