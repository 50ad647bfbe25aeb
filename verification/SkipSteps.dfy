/**
How many steps the search of CBlockIndex::GetAncestor takes (src/chain.cpp:84-110): the exact worst case for
heights below a power of two.
*/
module SkipSteps {
  import opened Numbers
  import opened Chain

  // ------------------------------------------------------------------ heights as bits

  lemma Parity(h: nat)
    ensures 2 * h / 2 == h && 2 * h % 2 == 0 && (2 * h + 1) / 2 == h && (2 * h + 1) % 2 == 1
  {}

  lemma Halves(w: nat)
    ensures w == 2 * (w / 2) + w % 2 && 0 <= w % 2 < 2
  {}

  /** The number of low bits within which two heights differ. */
  function Apart(w: nat, t: nat): (d: nat)
    ensures d == 0 <==> w == t
    decreases w + t
  {
    if w == t then 0 else 1 + Apart(w / 2, t / 2)
  }

  /** The ones among the low d bits. */
  function Ones(w: nat, d: nat): (k: nat)
    ensures k <= d
  {
    if d == 0 then 0 else w % 2 + Ones(w / 2, d - 1)
  }

  /** A height above its target, one bit at a time. */
  lemma Unfold(h: nat, t: nat)
    ensures 2 * h > t ==> h > t / 2 && Apart(2 * h, t) == 1 + Apart(h, t / 2)
    ensures 2 * h + 1 > t ==> h >= t / 2 && Apart(2 * h + 1, t) == 1 + Apart(h, t / 2)
  {
    Parity(h);
    Halves(t);
  }

  lemma UnfoldOnes(h: nat, d: nat)
    ensures Ones(2 * h, d + 1) == Ones(h, d) && Ones(2 * h + 1, d + 1) == 1 + Ones(h, d)
  {
    Parity(h);
  }

  lemma Split(w: nat, t: nat)
    requires w > t
    ensures w == 2 * (w / 2) + w % 2 && t == 2 * (t / 2) + t % 2 && 0 <= w % 2 < 2 && 0 <= t % 2 < 2
    ensures w / 2 >= t / 2 && (w % 2 == 0 ==> w / 2 > t / 2)
    ensures Apart(w, t) == 1 + Apart(w / 2, t / 2)
    ensures Ones(w, Apart(w, t)) == w % 2 + Ones(w / 2, Apart(w / 2, t / 2))
  {}

  lemma InvertOdd(h: nat)
    ensures InvertLowestOne(2 * h + 1) == 2 * h
  {
    BitAndSelf(h);
    Parity(h);
  }

  lemma InvertDouble(h: nat)
    ensures InvertLowestOne(2 * h) == 2 * InvertLowestOne(h)
  {
    if h > 0 { InvertEven(h); }
  }

  lemma InvertQuadruple(h: nat)
    ensures InvertLowestOne(4 * h) == 4 * InvertLowestOne(h)
    ensures InvertLowestOne(4 * h + 2) == 4 * h
  {
    hide InvertLowestOne;
    InvertDouble(h);
    InvertDouble(2 * h);
    InvertOdd(h);
    InvertDouble(2 * h + 1);
    assert 2 * (2 * h + 1) == 4 * h + 2;
  }

  lemma InvertEightfold(h: nat)
    ensures InvertLowestOne(8 * h) == 8 * InvertLowestOne(h)
    ensures InvertLowestOne(8 * h + 4) == 8 * h
  {
    hide InvertLowestOne;
    InvertDouble(4 * h);
    InvertQuadruple(h);
    InvertDouble(4 * h + 2);
    assert 2 * (4 * h + 2) == 8 * h + 4;
  }

  lemma {:induction false} TopSet(w: nat, t: nat)
    requires w > t
    ensures Ones(w, Apart(w, t)) >= 1
    decreases w
  {
    hide Apart, Ones;
    Split(w, t);
    if w / 2 > t / 2 { TopSet(w / 2, t / 2); }
  }

  /** Clearing a one below the topmost difference stays above the target. */
  lemma {:induction false} ClearKeeps(w: nat, t: nat)
    requires w > t && Ones(w, Apart(w, t)) >= 2
    ensures InvertLowestOne(w) > t
    ensures Apart(InvertLowestOne(w), t) == Apart(w, t)
    ensures Ones(InvertLowestOne(w), Apart(w, t)) == Ones(w, Apart(w, t)) - 1
    decreases w
  {
    hide InvertLowestOne, Apart, Ones;
    Split(w, t);
    var h, d := w / 2, Apart(w / 2, t / 2);
    if w % 2 == 1 {
      assert w == 2 * h + 1;
      InvertOdd(h);
      Unfold(h, t);
      UnfoldOnes(h, d);
    } else {
      assert w == 2 * h;
      InvertDouble(h);
      ClearKeeps(h, t / 2);
      Unfold(InvertLowestOne(h), t);
      UnfoldOnes(InvertLowestOne(h), d);
    }
  }

  /** Clearing the topmost difference does not. */
  lemma {:induction false} TopClears(w: nat, t: nat)
    requires w > t && Ones(w, Apart(w, t)) == 1
    ensures InvertLowestOne(w) <= t
    decreases w
  {
    hide InvertLowestOne, Apart, Ones;
    Split(w, t);
    var h := w / 2;
    if w % 2 == 1 {
      assert w == 2 * h + 1;
      InvertOdd(h);
      if h > t / 2 { TopSet(h, t / 2); }
    } else {
      assert w == 2 * h;
      InvertDouble(h);
      TopClears(h, t / 2);
    }
  }

  /** One below a single topmost one, all lower bits are ones. */
  lemma {:induction false} TopBelow(w: nat, t: nat)
    requires w > t && Ones(w, Apart(w, t)) == 1
    ensures Apart(w - 1, t) < Apart(w, t)
    ensures Ones(w - 1, Apart(w - 1, t)) == Apart(w - 1, t)
    decreases w
  {
    hide Apart, Ones;
    Split(w, t);
    var h := w / 2;
    if w % 2 == 1 {
      if h > t / 2 {
        TopSet(h, t / 2);
      }
      assert w - 1 == t;
    } else {
      TopBelow(h, t / 2);
      Unfold(h - 1, t);
      UnfoldOnes(h - 1, Apart(h - 1, t / 2));
      assert w - 1 == 2 * (h - 1) + 1;
    }
  }

  /** The lowest bit, and the lowest two, are below the topmost difference. */
  lemma LowBit(h: nat, t: nat)
    requires 2 * h + 1 > t && Apart(2 * h + 1, t) >= 2
    ensures 2 * h > t && Apart(2 * h + 1, t) == Apart(2 * h, t)
    ensures Ones(2 * h + 1, Apart(2 * h, t)) == Ones(2 * h, Apart(2 * h, t)) + 1
  {
    hide Apart, Ones;
    Unfold(h, t);
    Halves(t);
    UnfoldOnes(h, Apart(h, t / 2));
  }

  lemma LowBits(m: nat, t: nat)
    requires 4 * m > t && Apart(4 * m, t) >= 3
    ensures Apart(4 * m + 3, t) == Apart(4 * m, t) && Ones(4 * m + 3, Apart(4 * m, t)) == Ones(4 * m, Apart(4 * m, t)) + 2
  {
    hide Apart, Ones;
    Unfold(2 * m, t);
    Unfold(2 * m + 1, t);
    Unfold(m, t / 2);
    assert 2 * (2 * m) == 4 * m && 2 * (2 * m + 1) + 1 == 4 * m + 3;
    var d := Apart(2 * m, t / 2);
    UnfoldOnes(2 * m, d);
    UnfoldOnes(2 * m + 1, d);
    UnfoldOnes(m, d - 1);
  }

  // ------------------------------------------------------------------ where the search goes

  lemma SkipIs(h: nat)
    requires h >= 1
    ensures GetSkipHeight(2 * h + 1) == InvertLowestOne(InvertLowestOne(2 * h)) + 1
    ensures GetSkipHeight(2 * h) == InvertLowestOne(2 * h)
  {
    Parity(h);
  }

  lemma Next(w: nat, t: nat)
    requires t < w
    ensures var skip, skipPrev := GetSkipHeight(w), GetSkipHeight(w - 1);
            NextHeight(w, t) ==
            if skip == t || (skip > t && !(skipPrev < skip - 2 && skipPrev >= t)) then skip else w - 1
  {}

  /** From an odd height the skip pointer is followed whenever it does not lead too far. */
  lemma OddRule(h: nat, t: nat)
    requires h >= 1 && t < 2 * h + 1
    ensures var x := InvertLowestOne(InvertLowestOne(2 * h)) + 1; NextHeight(2 * h + 1, t) == if x >= t then x else 2 * h
  {
    hide InvertLowestOne, GetSkipHeight, NextHeight;
    Next(2 * h + 1, t);
    SkipIs(h);
    InvertSmaller(InvertLowestOne(2 * h));
  }

  /** From a multiple of eight, too. */
  lemma EightRule(m: nat, t: nat)
    requires m > 0 && t < 8 * m
    ensures var x := InvertLowestOne(8 * m); NextHeight(8 * m, t) == if x >= t then x else 8 * m - 1
  {
    hide InvertLowestOne, GetSkipHeight, NextHeight;
    Next(8 * m, t);
    SkipIs(4 * m);
    SkipIs(4 * m - 1);
    SkipSeven(m - 1);
    InvertEightfold(m);
    InvertSmaller(m);
    assert 2 * (4 * m) == 8 * m && 2 * (4 * m - 1) + 1 == 8 * m - 1 && 2 * (4 * m - 1) == 8 * (m - 1) + 6;
  }

  lemma SkipSeven(q: nat)
    ensures InvertLowestOne(InvertLowestOne(8 * q + 6)) == 8 * q
  {
    hide InvertLowestOne;
    var m := 2 * q + 1;
    assert 8 * q + 6 == 4 * m + 2 && 4 * m == 8 * q + 4;
    InvertQuadruple(m);
    InvertEightfold(q);
  }

  /** From 4m + 2 the parent's skip pointer is better if it does not lead too far. */
  lemma TwoRule(m: nat, t: nat)
    requires m > 0 && t < 4 * m
    ensures var x := InvertLowestOne(InvertLowestOne(4 * m)) + 1;
            NextHeight(4 * m + 2, t) == if x >= t && x < 4 * m - 2 then 4 * m + 1 else 4 * m
  {
    hide InvertLowestOne, GetSkipHeight, NextHeight;
    Next(4 * m + 2, t);
    SkipIs(2 * m);
    SkipIs(2 * m + 1);
    InvertQuadruple(m);
    assert 2 * (2 * m) == 4 * m && 2 * (2 * m + 1) == 4 * m + 2 && 2 * (2 * m) + 1 == 4 * m + 2 - 1;
  }

  /** Likewise from 8m + 4. */
  lemma FourRule(m: nat, t: nat)
    requires m > 0 && t < 8 * m
    ensures var x := InvertLowestOne(8 * m) + 1;
            NextHeight(8 * m + 4, t) == if x >= t && x < 8 * m - 2 then 8 * m + 3 else 8 * m
  {
    hide InvertLowestOne, GetSkipHeight, NextHeight;
    Next(8 * m + 4, t);
    SkipIs(4 * m + 1);
    SkipIs(4 * m + 2);
    InvertEightfold(m);
    InvertQuadruple(2 * m);
    assert 2 * (4 * m + 1) == 8 * m + 2 && 2 * (4 * m + 1) + 1 == 8 * m + 4 - 1 && 2 * (4 * m + 2) == 8 * m + 4;
    assert 4 * (2 * m) + 2 == 8 * m + 2 && 4 * (2 * m) == 8 * m;
  }

  /** From an even height whose skip target is too far. */
  lemma TopRule(h: nat, t: nat)
    requires h >= 1 && t < 2 * h && InvertLowestOne(2 * h) <= t
    ensures NextHeight(2 * h, t) == if InvertLowestOne(2 * h) == t then t else 2 * h - 1
  {
    hide InvertLowestOne, GetSkipHeight, NextHeight;
    Next(2 * h, t);
    SkipIs(h);
  }

  // ------------------------------------------------------------------ the bound

  /** Half of k, rounded up. */
  function Up(k: nat): nat {
    (k + 1) / 2
  }

  lemma UpNext(k: nat)
    ensures Up(k + 2) == Up(k) + 1 && Up(k) <= Up(k + 1) && Up(2) == 1 && Up(3) == 2
  {}

  /** The worst case when all d low bits of the height are ones. */
  function Full(d: nat): nat {
    if d <= 2 then d else if d == 3 then 4 else Full(d - 1) + Up(d) + 1
  }

  lemma Quarter(d: nat)
    ensures d % 2 == 0 ==> d * d / 4 == d / 2 * (d / 2)
    ensures d % 2 == 1 ==> d * d / 4 == d / 2 * (d / 2) + d / 2
  {
    Halves(d);
    Square(d / 2, d % 2);
  }

  lemma Square(h: nat, r: nat)
    ensures (2 * h + r) * (2 * h + r) == 4 * (h * h) + 4 * (h * r) + r * r
  {}

  lemma {:induction false} FullIs(d: nat)
    requires d >= 3
    ensures Full(d) == (d + 1) * (d + 1) / 4 + d - 3
  {
    if d > 3 {
      FullIs(d - 1);
      Quarter(d);
      Quarter(d + 1);
      HalfNext(d);
    }
  }

  lemma HalfNext(d: nat)
    ensures d % 2 == 1 ==> (d + 1) / 2 * ((d + 1) / 2) == d / 2 * (d / 2) + 2 * (d / 2) + 1
    ensures d % 2 == 0 ==> (d + 1) / 2 == d / 2
  {
    if d % 2 == 1 {
      assert (d + 1) / 2 == d / 2 + 1;
    }
  }

  lemma {:induction false} FullMono(a: nat, b: nat)
    requires a <= b
    ensures Full(a) <= Full(b)
    decreases b
  {
    if a < b { FullMono(a, b - 1); }
  }

  /** What it takes to clear k ones down to the topmost. */
  function Extra(w: nat, k: nat): nat {
    if w % 2 == 1 then Up(k) + 1
    else if w % 8 == 0 || k <= 2 then k
    else if w % 4 == 2 then Up(k) + 2
    else Up(k + 1) + 2
  }

  lemma ExtraIs(m: nat, k: nat)
    ensures Extra(2 * m + 1, k) == Up(k) + 1
    ensures Extra(8 * m, k) == k
    ensures k <= 2 ==> Extra(2 * m, k) == k
    ensures k > 2 ==> Extra(4 * m + 2, k) == Up(k) + 2 && Extra(8 * m + 4, k) == Up(k + 1) + 2
  {
    hide Up;
    Parity(m);
    Parity(4 * m);
    Parity(2 * m + 1);
    Parity(4 * m + 2);
    assert 8 * m % 8 == 0 && (4 * m + 2) % 4 == 2 && (8 * m + 4) % 4 == 0 && (8 * m + 4) % 8 == 4;
    Remainders(m);
  }

  lemma Remainders(m: nat)
    ensures (4 * m + 2) % 8 != 0
  {}

  /** The bound for a search from w to t. */
  function Bound(w: nat, t: nat): nat {
    var d := Apart(w, t);
    if d <= 3 then Full(d) else Full(d - 1) + Extra(w, Ones(w, d))
  }

  lemma BoundAtLeast(w: nat, t: nat)
    requires w > t && Apart(w, t) >= 4
    ensures Bound(w, t) >= 5
  {
    hide Ones, Apart, Up, Full;
    TopSet(w, t);
    FullThree();
    FullMono(3, Apart(w, t) - 1);
  }

  lemma FullThree()
    ensures Full(3) == 4
  {}

  lemma StepsClose(t: nat)
    ensures Steps(t + 1, t) == 1
  {
    assert NextHeight(t + 1, t) == t;
  }

  lemma StepsUnfold(w: nat, t: nat)
    ensures t <= w ==> Steps(w, t) == if w == t then 0 else 1 + Steps(NextHeight(w, t), t)
  {}

  /** A step, or a step and another one, that comes next to the target. */
  ghost predicate Close(w: nat, t: nat)
    requires t < w
  {
    var n := NextHeight(w, t);
    n <= t + 1 || NextHeight(n, t) <= t + 1
  }

  lemma CloseSteps(w: nat, t: nat)
    requires t < w && Close(w, t)
    ensures Steps(w, t) <= 3
  {
    hide NextHeight, Steps;
    var n := NextHeight(w, t);
    StepsClose(t);
    StepsUnfold(t, t);
    StepsUnfold(w, t);
    if n > t + 1 {
      StepsUnfold(n, t);
    }
  }

  /** One step uses up one of the bound. */
  ghost predicate Pays(w: nat, t: nat)
    requires t < w
  {
    Close(w, t) || Bound(NextHeight(w, t), t) + 1 <= Bound(w, t)
  }

  lemma OddPays(h: nat, t: nat)
    requires t < 2 * h + 1 && Apart(2 * h + 1, t) >= 4
    ensures Pays(2 * h + 1, t)
  {
    hide InvertLowestOne, NextHeight, Full, Ones, Apart, Extra, Up;
    var p, d := 2 * h, Apart(2 * h + 1, t);
    LowBit(h, t);
    var k := Ones(2 * h + 1, d);
    TopSet(p, t);
    OddRule(h, t);
    ExtraIs(h, k);
    ExtraIs(h, k - 1);
    var x := InvertLowestOne(p);
    if k == 2 {
      TopClears(p, t);
      InvertSmaller(x);
      UpNext(0);
    } else {
      ClearKeeps(p, t);
      if k == 3 {
        TopClears(x, t);
        UpNext(0);
      } else {
        ClearKeeps(x, t);
        InvertDouble(h);
        InvertDouble(InvertLowestOne(h));
        BackUp(InvertLowestOne(InvertLowestOne(h)), t, d);
        UpNext(k - 2);
        ExtraIs(InvertLowestOne(InvertLowestOne(h)), k - 2);
      }
    }
  }

  /** Setting the lowest bit again. */
  lemma BackUp(h: nat, t: nat, d: nat)
    requires 2 * h > t && Apart(2 * h, t) == d >= 2
    ensures Apart(2 * h + 1, t) == d && Ones(2 * h + 1, d) == Ones(2 * h, d) + 1
  {
    hide Apart, Ones;
    Unfold(h, t);
    UnfoldOnes(h, d - 1);
  }

  lemma AllOnesBound(w: nat, t: nat)
    requires t <= w && Ones(w, Apart(w, t)) == Apart(w, t)
    requires forall k :: Extra(w, k) == Up(k) + 1
    ensures Bound(w, t) == Full(Apart(w, t))
  {
    hide Ones, Apart, Extra, Up;
  }

  /** A height whose only one below the prefix is the topmost. */
  lemma TopPays(h: nat, t: nat)
    requires t < 2 * h && Apart(2 * h, t) >= 4 && Ones(2 * h, Apart(2 * h, t)) == 1
    ensures Pays(2 * h, t)
  {
    hide InvertLowestOne, Ones, Apart, NextHeight, Full, Extra, Up;
    var w := 2 * h;
    TopClears(w, t);
    TopBelow(w, t);
    forall k ensures Extra(w - 1, k) == Up(k) + 1 {
      ExtraIs(h - 1, k);
    }
    AllOnesBound(w - 1, t);
    FullMono(Apart(w - 1, t), Apart(w, t) - 1);
    TopRule(h, t);
    ExtraIs(h, 1);
  }

  lemma EightPays(m: nat, t: nat)
    requires t < 8 * m && Apart(8 * m, t) >= 4 && Ones(8 * m, Apart(8 * m, t)) >= 2
    ensures Pays(8 * m, t)
  {
    hide InvertLowestOne, Ones, Apart, NextHeight, Full, Extra, Up;
    var k := Ones(8 * m, Apart(8 * m, t));
    EightRule(m, t);
    ClearKeeps(8 * m, t);
    InvertEightfold(m);
    ExtraIs(m, k);
    ExtraIs(InvertLowestOne(m), k - 1);
  }

  lemma TwoPays(m: nat, t: nat)
    requires t < 4 * m + 2 && Apart(4 * m + 2, t) >= 4 && Ones(4 * m + 2, Apart(4 * m + 2, t)) >= 2
    ensures Pays(4 * m + 2, t)
  {
    hide InvertLowestOne, Ones, Apart, NextHeight, Full, Extra, Up;
    var s, d := 4 * m, Apart(4 * m + 2, t);
    var k := Ones(4 * m + 2, d);
    InvertQuadruple(m);
    ClearKeeps(4 * m + 2, t);
    TwoRule(m, t);
    ExtraIs(2 * m + 1, k);
    ExtraIs(2 * m, k - 1);
    ExtraIs(m, k);
    assert 2 * (2 * m) == s && 2 * (2 * m + 1) == 4 * m + 2;
    var x := InvertLowestOne(s);
    if k <= 3 {
      TwoClose(m, t, d, k);
      UpNext(1);
    } else {
      ClearKeeps(s, t);
      ClearKeeps(x, t);
      InvertQuadruple(InvertLowestOne(m));
      InvertSmaller(m);
      InvertSmaller(InvertLowestOne(m));
      BackUp(2 * m, t, d);
      ExtraIs(2 * m, k);
    }
  }

  /** With few ones left, the parent's skip pointer leads next to the target or too far. */
  lemma TwoClose(m: nat, t: nat, d: nat, k: nat)
    requires t < 4 * m && Apart(4 * m, t) == d && Ones(4 * m, d) == k - 1 && 2 <= k <= 3
    ensures Close(4 * m + 2, t) || NextHeight(4 * m + 2, t) == 4 * m
  {
    hide InvertLowestOne, Ones, Apart, NextHeight;
    var s := 4 * m;
    var x := InvertLowestOne(s);
    TwoRule(m, t);
    if k == 2 {
      TopClears(s, t);
      InvertSmaller(x);
    } else {
      ClearKeeps(s, t);
      TopClears(x, t);
    }
    OddRule(2 * m, t);
    assert 2 * (2 * m) == s;
  }

  lemma FourPays(m: nat, t: nat)
    requires t < 8 * m + 4 && Apart(8 * m + 4, t) >= 4 && Ones(8 * m + 4, Apart(8 * m + 4, t)) >= 2
    ensures Pays(8 * m + 4, t)
  {
    hide InvertLowestOne, Ones, Apart, NextHeight, Full, Extra, Up;
    var s, d := 8 * m, Apart(8 * m + 4, t);
    var k := Ones(8 * m + 4, d);
    InvertEightfold(m);
    ClearKeeps(8 * m + 4, t);
    FourRule(m, t);
    ExtraIs(4 * m + 2, k);
    ExtraIs(m, k - 1);
    ExtraIs(m, k);
    assert 2 * (4 * m + 2) == 8 * m + 4;
    if k == 2 {
      FourClose(m, t, d);
    } else {
      ClearKeeps(s, t);
      InvertSmaller(m);
      assert 4 * (2 * m) == s && 2 * (4 * m + 1) + 1 == s + 3;
      LowBits(2 * m, t);
      ExtraIs(4 * m + 1, k + 1);
    }
  }

  lemma FourClose(m: nat, t: nat, d: nat)
    requires t < 8 * m && Apart(8 * m, t) == d && Ones(8 * m, d) == 1
    ensures Close(8 * m + 4, t) || NextHeight(8 * m + 4, t) == 8 * m
  {
    hide InvertLowestOne, Ones, Apart, NextHeight;
    TopClears(8 * m, t);
    FourRule(m, t);
    InvertQuadruple(2 * m);
    OddRule(4 * m + 1, t);
    assert 2 * (4 * m + 1) == 8 * m + 2 == 4 * (2 * m) + 2 && 4 * (2 * m) == 8 * m;
  }

  // ------------------------------------------------------------------ the last three bits

  lemma TwoZero(q: nat)
    ensures Steps(4 * q + 2, 4 * q) == 1
  {
    hide NextHeight, Steps, InvertLowestOne;
    InvertQuadruple(q);
    TopRule(2 * q + 1, 4 * q);
    assert 2 * (2 * q + 1) == 4 * q + 2;
    StepsUnfold(4 * q + 2, 4 * q);
    StepsUnfold(4 * q, 4 * q);
  }

  lemma ThreeLow(q: nat, t: nat)
    requires 4 * q <= t <= 4 * q + 1
    ensures Steps(4 * q + 3, t) <= 2
  {
    hide InvertLowestOne, Steps, NextHeight;
    InvertQuadruple(q);
    InvertSmaller(q);
    OddRule(2 * q + 1, t);
    assert 2 * (2 * q + 1) == 4 * q + 2;
    OddLands(4 * q + 3, t);
    if t == 4 * q {
      TwoZero(q);
    } else {
      StepsClose(t);
    }
  }

  /** From a height whose skip target is near: there, or to the parent. */
  lemma OddLands(w: nat, t: nat)
    requires t < w && (NextHeight(w, t) == w - 1 || NextHeight(w, t) <= t + 1)
    ensures if NextHeight(w, t) == w - 1 then Steps(w, t) == 1 + Steps(w - 1, t) else Steps(w, t) <= 2
  {
    hide NextHeight, Steps;
    StepsClose(t);
    StepsUnfold(t, t);
    StepsUnfold(w, t);
  }

  lemma SmallTwo(q: nat, w: nat, t: nat)
    requires 4 * q <= t < w < 4 * q + 4
    ensures Steps(w, t) <= 2
  {
    hide Steps;
    if w == t + 1 {
      StepsClose(t);
    } else if w == 4 * q + 2 {
      TwoZero(q);
    } else {
      ThreeLow(q, t);
    }
  }

  lemma SmallFour(q: nat, t: nat)
    requires 8 * q <= t < 8 * q + 4
    ensures Steps(8 * q + 4, t) <= if t >= 8 * q + 2 then 2 else 3
  {
    hide InvertLowestOne, Steps, NextHeight;
    var w := 8 * q + 4;
    InvertEightfold(q);
    TopRule(4 * q + 2, t);
    assert 2 * (4 * q + 2) == w && 4 * (2 * q) == 8 * q;
    StepsUnfold(w, t);
    StepsUnfold(t, t);
    StepsClose(t);
    if t < w - 1 {
      SmallTwo(2 * q, w - 1, t);
    }
  }

  lemma SmallSix(q: nat, t: nat)
    requires 8 * q <= t < 8 * q + 4
    ensures Steps(8 * q + 6, t) <= if t >= 8 * q + 2 then 3 else 4
  {
    hide InvertLowestOne, Steps, NextHeight;
    var m := 2 * q + 1;
    assert 4 * m == 8 * q + 4 && 2 * (2 * m) + 1 == 8 * q + 5;
    InvertEightfold(q);
    InvertSmaller(q);
    TwoRule(m, t);
    StepsUnfold(8 * q + 6, t);
    SmallFour(q, t);
    if NextHeight(8 * q + 6, t) == 8 * q + 5 {
      OddRule(2 * m, t);
      CloseSteps(8 * q + 6, t);
    }
  }

  lemma SmallFive(q: nat, t: nat)
    requires 8 * q <= t < 8 * q + 4
    ensures Steps(8 * q + 5, t) <= 4
  {
    hide InvertLowestOne, Steps, NextHeight;
    SmallFour(q, t);
    InvertEightfold(q);
    InvertSmaller(q);
    OddRule(4 * q + 2, t);
    assert 2 * (4 * q + 2) == 8 * q + 4;
    OddLands(8 * q + 5, t);
  }

  lemma SmallSeven(q: nat, t: nat)
    requires 8 * q <= t < 8 * q + 4
    ensures Steps(8 * q + 7, t) <= 4
  {
    hide InvertLowestOne, Steps, NextHeight;
    SmallSix(q, t);
    SkipSeven(q);
    OddRule(4 * q + 3, t);
    assert 2 * (4 * q + 3) == 8 * q + 6;
    OddLands(8 * q + 7, t);
  }

  lemma SmallThree(q: nat, w: nat, t: nat)
    requires 8 * q <= t < 8 * q + 4 <= w < 8 * q + 8
    ensures Steps(w, t) <= 4
  {
    hide Steps;
    if w == 8 * q + 4 {
      SmallFour(q, t);
    } else if w == 8 * q + 5 {
      SmallFive(q, t);
    } else if w == 8 * q + 6 {
      SmallSix(q, t);
    } else {
      SmallSeven(q, t);
    }
  }

  /** Heights that differ in the last three bits only. */
  lemma Small(w: nat, t: nat)
    requires t < w && Apart(w, t) <= 3
    ensures Steps(w, t) <= Full(Apart(w, t))
  {
    hide Steps, Apart;
    ApartOne(w, t);
    Halves(w);
    Halves(t);
    if w / 2 == t / 2 {
      StepsClose(t);
    } else {
      var a, b := w / 2, t / 2;
      ApartOne(a, b);
      Halves(a);
      Halves(b);
      if a / 2 == b / 2 {
        SmallTwo(a / 2, w, t);
      } else {
        var c, e := a / 2, b / 2;
        ApartOne(c, e);
        Halves(c);
        Halves(e);
        SmallThree(c / 2, w, t);
      }
    }
  }

  lemma ApartOne(w: nat, t: nat)
    ensures w != t ==> Apart(w, t) == 1 + Apart(w / 2, t / 2)
    ensures w > t ==> w / 2 >= t / 2
  {}

  // ------------------------------------------------------------------ the worst case

  lemma StepPays(w: nat, t: nat)
    requires t < w && Apart(w, t) >= 4
    ensures Pays(w, t)
  {
    hide Ones, Apart, Pays;
    TopSet(w, t);
    var h := w / 2;
    Halves(w);
    Halves(h);
    Halves(h / 2);
    if w == 2 * h + 1 {
      OddPays(h, t);
    } else if Ones(w, Apart(w, t)) == 1 {
      TopPays(h, t);
    } else if h == 2 * (h / 2) + 1 {
      TwoPays(h / 2, t);
    } else if h / 2 == 2 * (h / 2 / 2) {
      EightPays(h / 2 / 2, t);
    } else {
      FourPays(h / 2 / 2, t);
    }
  }

  lemma {:induction false} StepsBounded(w: nat, t: nat)
    requires t <= w
    ensures Steps(w, t) <= Bound(w, t)
    decreases w
  {
    hide Bound, Apart, NextHeight;
    if w > t {
      if Apart(w, t) <= 3 {
        Small(w, t);
        BoundSmall(w, t);
      } else {
        StepPays(w, t);
        if Close(w, t) {
          CloseSteps(w, t);
          BoundAtLeast(w, t);
        } else {
          StepsBounded(NextHeight(w, t), t);
        }
      }
    }
  }

  lemma BoundSmall(w: nat, t: nat)
    requires Apart(w, t) <= 3
    ensures Bound(w, t) == Full(Apart(w, t))
  {}

  lemma {:induction false} ApartBits(w: nat, t: nat, n: nat)
    requires t <= w < Pow2(n)
    ensures Apart(w, t) <= n
    decreases n
  {
    if w != t { ApartBits(w / 2, t / 2, n - 1); }
  }

  /** Even heights, and multiples of four and eight, have fewer ones. */
  lemma OnesFewer(h: nat, d: nat)
    requires d >= 3
    ensures Ones(2 * h, d) <= d - 1 && Ones(4 * h, d) <= d - 2 && Ones(8 * h, d) <= d - 3
  {
    hide Ones;
    UnfoldOnes(h, d - 1);
    UnfoldOnes(h, d - 2);
    UnfoldOnes(h, d - 3);
    UnfoldOnes(2 * h, d - 1);
    UnfoldOnes(2 * h, d - 2);
    UnfoldOnes(4 * h, d - 1);
    assert 2 * (2 * h) == 4 * h && 2 * (4 * h) == 8 * h;
  }

  /** What a search costs before it first drops below its topmost difference. */
  lemma ExtraBounded(w: nat, d: nat)
    requires d >= 4
    ensures Extra(w, Ones(w, d)) <= if d >= 9 then d - 3 else 6
  {
    hide Ones, Extra, Up;
    var h, k := w / 2, Ones(w, d);
    Halves(w);
    Halves(h);
    Halves(h / 2);
    if w == 2 * h + 1 {
      ExtraIs(h, k);
      UpBounded(k, d, 0);
    } else if k <= 2 {
      ExtraIs(h, k);
    } else if h == 2 * (h / 2) + 1 {
      ExtraIs(h / 2, k);
      OnesFewer(h, d);
      UpBounded(k, d, 1);
    } else if h / 2 == 2 * (h / 2 / 2) {
      ExtraIs(h / 2 / 2, k);
      OnesFewer(h / 2 / 2, d);
    } else {
      ExtraIs(h / 2 / 2, k);
      OnesFewer(h / 2, d);
      UpBounded(k + 1, d, 1);
    }
  }

  lemma UpBounded(k: nat, d: nat, r: nat)
    requires k + r <= d && 4 <= d && r <= 1
    ensures Up(k) + r + 1 <= if d >= 9 then d - 3 else 6
  {}

  /** The search from a height below 2^n takes at most n^2 / 4 + 2n - 7 steps. */
  lemma SearchBound(n: nat, w: nat, t: nat)
    requires n >= 9 && t <= w < Pow2(n)
    ensures Steps(w, t) <= n * n / 4 + 2 * n - 7
  {
    hide Steps, Full, Extra, Ones, Apart, Pow2;
    StepsBounded(w, t);
    ApartBits(w, t, n);
    var d := Apart(w, t);
    FullIs(n - 1);
    assert n - 1 + 1 == n;
    if d <= 3 {
      FullMono(d, n - 1);
    } else {
      ExtraBounded(w, d);
      FullMono(d - 1, n - 1);
    }
  }

  // ------------------------------------------------------------------ the bound is attained

  /** Powers of two minus powers of two, as odd multiples of the smaller. */
  lemma InvertRun(n: nat, i: nat)
    requires i < n
    ensures Pow2(i) < Pow2(i + 1) <= Pow2(n) && InvertLowestOne(Pow2(n) - Pow2(i)) == Pow2(n) - Pow2(i + 1)
  {
    hide InvertLowestOne;
    var m := Pow2(n - i - 1) - 1;
    Pow2Add(i, n - i);
    assert Pow2(n - i) == 2 * Pow2(n - i - 1);
    var p := Pow2(i);
    assert Pow2(n) - p == p * (2 * m + 1) by {
      assert p * (2 * m + 1) == p * (2 * m + 2) - p;
    }
    assert Pow2(n) - 2 * p == p * (2 * m) by {
      assert p * (2 * m) == p * (2 * m + 2) - 2 * p;
    }
    InvertLowestOneIs(i, m);
    Pow2Mono(i + 1, n);
  }

  lemma Multiple8(i: nat)
    requires i >= 3
    ensures Pow2(i) % 8 == 0 && Pow2(i) >= 8
  {
    Pow2Add(3, i - 3);
    assert Pow2(3) == 8;
  }

  lemma InvertZero()
    ensures InvertLowestOne(0) == 0
  {}

  /** From a single one the search goes to all ones. */
  lemma SingleOne(d: nat)
    requires d >= 3
    ensures Pow2(d) > 2 && Steps(Pow2(d), 2) == 1 + Steps(Pow2(d) - 1, 2)
  {
    hide Steps, NextHeight;
    Multiple8(d);
    InvertRun(d + 1, d);
    EightRule(Pow2(d) / 8, 2);
    StepsUnfold(Pow2(d), 2);
  }

  /** From two adjacent ones it goes to the upper one. */
  lemma TwoOnes(d: nat)
    requires d >= 4
    ensures Pow2(d) - Pow2(d - 2) > 2 && Steps(Pow2(d) - Pow2(d - 2), 2) == 1 + Steps(Pow2(d - 1), 2)
  {
    hide Steps, NextHeight, InvertLowestOne;
    InvertRun(d, d - 2);
    InvertRun(d, d - 1);
    Multiple8(d - 1);
    var w := Pow2(d) - Pow2(d - 2);
    StepsUnfold(w, 2);
    if d == 4 {
      assert Pow2(4) == 16 && Pow2(3) == 8 && Pow2(2) == 4;
      FourRule(1, 2);
      InvertEightfold(1);
      InvertOdd(0);
    } else {
      Multiple8(d - 2);
      EightRule(w / 8, 2);
    }
  }

  lemma RunMultiple(n: nat, i: nat)
    requires i < n
    ensures Pow2(n) - Pow2(i) >= Pow2(n - 1)
    ensures i >= 1 ==> (Pow2(n) - Pow2(i)) % 2 == 0
    ensures i >= 3 ==> (Pow2(n) - Pow2(i)) % 8 == 0
  {
    Pow2Mono(i, n - 1);
    assert Pow2(n) == 2 * Pow2(n - 1);
    hide Pow2;
    if i >= 3 {
      Multiple8(i);
      Multiple8(n);
    }
    if i >= 1 {
      Multiple2(i);
      Multiple2(n);
    }
  }

  lemma Multiple2(i: nat)
    requires i >= 1
    ensures Pow2(i) % 2 == 0
  {
    assert Pow2(i) == 2 * Pow2(i - 1);
  }

  lemma InvertRunTwice(d: nat, i: nat)
    requires i < d
    ensures Pow2(i) < Pow2(d) && (i + 2 <= d ==> Pow2(i + 2) <= Pow2(d))
    ensures InvertLowestOne(InvertLowestOne(Pow2(d) - Pow2(i))) == if i + 2 <= d then Pow2(d) - Pow2(i + 2) else 0
  {
    hide InvertLowestOne;
    InvertRun(d, i);
    if i + 2 <= d {
      InvertRun(d, i + 1);
    } else {
      InvertZero();
    }
  }

  lemma OddRun(d: nat, i: nat)
    requires 1 <= i < d && d >= 4
    ensures Pow2(d) - Pow2(i) + 1 >= 9
    ensures NextHeight(Pow2(d) - Pow2(i) + 1, 2) ==
            if i + 3 <= d then Pow2(d) - Pow2(i + 2) + 1 else Pow2(d) - Pow2(i)
  {
    hide NextHeight, InvertLowestOne, Pow2;
    Multiple8(d - 1);
    RunMultiple(d, i);
    var h := (Pow2(d) - Pow2(i)) / 2;
    Halves(Pow2(d) - Pow2(i));
    OddRule(h, 2);
    InvertRunTwice(d, i);
    if i + 3 <= d { RunMultiple(d, i + 2); }
  }

  lemma {:induction false} OddDown(d: nat, i: nat)
    requires 1 <= i < d && d >= 4
    ensures Pow2(d) - Pow2(i) + 1 > 2
    ensures Steps(Pow2(d) - Pow2(i) + 1, 2) == Full(d - 1) + (d - i) / 2 + 2
    decreases d, d - i
  {
    hide Steps, NextHeight, InvertLowestOne;
    OddRun(d, i);
    var w := Pow2(d) - Pow2(i) + 1;
    StepsUnfold(w, 2);
    if i + 3 <= d {
      OddDown(d, i + 2);
    } else {
      if i + 2 == d {
        TwoOnes(d);
      }
      SingleOne(d - 1);
      AllOnesSteps(d - 1);
    }
  }

  lemma {:induction false} AllOnesSteps(d: nat)
    requires d >= 3
    ensures Pow2(d) - 1 > 2 && Steps(Pow2(d) - 1, 2) == Full(d)
    decreases d, d
  {
    if d == 3 {
      assert Pow2(3) == 8;
      SevenTwo();
    } else {
      hide Steps;
      OddDown(d, 1);
      assert Pow2(1) == 2;
      Multiple8(d);
    }
  }

  lemma SevenTwo()
    ensures Steps(7, 2) == 4
  {
    hide Steps, InvertLowestOne, NextHeight;
    SkipSeven(0);
    OddRule(3, 2);
    InvertEightfold(0);
    InvertZero();
    TwoRule(1, 2);
    TopRule(2, 2);
    StepsUnfold(7, 2);
    StepsUnfold(6, 2);
    StepsUnfold(4, 2);
    StepsClose(2);
  }

  lemma {:induction false} EightDown(n: nat, i: nat)
    requires 3 <= i < n
    ensures Pow2(n) - Pow2(i) > 2
    ensures Steps(Pow2(n) - Pow2(i), 2) == n - i + Full(n - 1)
    decreases n - i
  {
    hide Steps, NextHeight, InvertLowestOne;
    InvertRun(n, i);
    RunMultiple(n, i);
    Multiple8(n - 1);
    var w := Pow2(n) - Pow2(i);
    if i == n - 1 {
      SingleOne(n - 1);
      AllOnesSteps(n - 1);
    } else {
      EightDown(n, i + 1);
      assert 8 * (w / 8) == w;
      EightRule(w / 8, 2);
      StepsUnfold(w, 2);
    }
  }

  /** The bound is attained by the search from 2^n - 8 to height two. */
  lemma SearchWorst(n: nat)
    requires n >= 4
    ensures Pow2(n) >= 10 && Steps(Pow2(n) - 8, 2) == n * n / 4 + 2 * n - 7
  {
    hide Steps, Full;
    EightDown(n, 3);
    assert Pow2(3) == 8;
    FullIs(n - 1);
    assert n - 1 + 1 == n;
  }

  /** Within 2^18 blocks the longest search takes 110 steps, as the source says of its simulations. */
  lemma Documented()
    ensures forall w: nat, t: nat :: t <= w < 0x4_0000 ==> Steps(w, t) <= 110
    ensures Steps(0x3_FFF8, 2) == 110
  {
    hide Steps;
    assert Pow2(18) == 0x4_0000 by {
      hide Pow2;
      Pow2Is32();
      Pow2Add(16, 2);
      Pow2Small();
    }
    forall w: nat, t: nat | t <= w < 0x4_0000 ensures Steps(w, t) <= 110 {
      SearchBound(18, w, t);
    }
    SearchWorst(18);
  }

  /** The number of steps is not logarithmic: no multiple of the number of bits bounds it. */
  lemma NotLogarithmic(c: nat)
    ensures var n := 4 * c + 4; Pow2(n) >= 10 && Steps(Pow2(n) - 8, 2) > c * n
  {
    hide Steps, Pow2;
    var n := 4 * c + 4;
    SearchWorst(n);
    assert n * n == 4 * ((c + 1) * n);
    assert (c + 1) * n == c * n + n;
  }
}
