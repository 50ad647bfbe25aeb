/**
The consistency check of src/addrman.cpp, run as written: it returns 0 exactly for the books it is
meant to accept, and so in every state the address manager can reach.
*/
module AddrManCheck {
  import opened AddrMan

  /** What looking an address up with operator[] yields: a missing key reads as 0. */
  function Indexed(byAddr: map<NetAddr, int>, ip: NetAddr): int {
    if ip in byAddr then byAddr[ip] else 0
  }

  /** The conditions on a single entry. */
  predicate EntryFine(infos: Infos, byAddr: map<NetAddr, int>, random: seq<int>, n: int)
    requires n in infos
  {
    var info := infos[n];
    && (if info.inTried then info.lastSuccess != 0 && info.refCount == 0
        else 1 <= info.refCount <= NEW_BUCKETS_PER_ADDRESS)
    && Indexed(byAddr, info.service.ip) == n
    && 0 <= info.randomPos < |random| && random[info.randomPos] == n
    && info.lastTry >= 0 && info.lastSuccess >= 0
  }

  /** The declarative reading of Check_. */
  ghost predicate Consistent(l: Layout, infos: Infos, byAddr: map<NetAddr, int>, random: seq<int>,
                             nTried: int, nNew: int, tried: Table, news: Table)
  {
    && |random| == nTried + nNew
    && (forall n :: n in infos ==> EntryFine(infos, byAddr, random, n))
    && nTried == |TriedIds(infos)| && nNew == |NewIds(infos, {})|
    && TriedOk(l, infos, tried)
    && NewOk(l, infos, news, {})
  }

  // ---------- the first loop ----------

  method CheckEntries(infos: Infos, byAddr: map<NetAddr, int>, random: seq<int>)
    returns (err: int, setTried: set<int>, mapNew: map<int, int>)
    ensures err == 0 <==> forall n :: n in infos ==> EntryFine(infos, byAddr, random, n)
    ensures err == 0 ==> setTried == TriedIds(infos)
    ensures err == 0 ==> mapNew.Keys == NewIds(infos, {}) && forall n :: n in mapNew ==> mapNew[n] == infos[n].refCount
  {
    setTried, mapNew := {}, map[];
    var todo := infos.Keys;
    while todo != {}
      invariant todo <= infos.Keys
      invariant forall n :: n in infos && n !in todo ==> EntryFine(infos, byAddr, random, n)
      invariant forall n :: n in setTried <==> n in infos && n !in todo && infos[n].inTried
      invariant forall n :: n in mapNew <==> n in infos && n !in todo && !infos[n].inTried
      invariant forall n :: n in mapNew ==> mapNew[n] == infos[n].refCount
      decreases todo
    {
      EmptyOrNot(todo);
      var n :| n in todo;
      var info := infos[n];
      if info.inTried {
        if info.lastSuccess == 0 { return -1, {}, map[]; }
        if info.refCount != 0 { return -2, {}, map[]; }
        setTried := setTried + {n};
      } else {
        if info.refCount < 0 || info.refCount > NEW_BUCKETS_PER_ADDRESS { return -3, {}, map[]; }
        if info.refCount == 0 { return -4, {}, map[]; }
        mapNew := mapNew[n := info.refCount];
      }
      if Indexed(byAddr, info.service.ip) != n { return -5, {}, map[]; }
      if info.randomPos < 0 || info.randomPos >= |random| || random[info.randomPos] != n { return -14, {}, map[]; }
      if info.lastTry < 0 { return -6, {}, map[]; }
      if info.lastSuccess < 0 { return -8, {}, map[]; }
      todo := todo - {n};
    }
    err := 0;
    forall n ensures n in setTried <==> n in TriedIds(infos) {}
    forall n ensures n in mapNew.Keys <==> n in NewIds(infos, {}) {}
  }

  // ---------- the scans of the two tables ----------

  /** Row by row, whether slot (b, p) comes before slot (n, i). */
  predicate Before(b: int, p: int, n: int, i: int) {
    b < n || (b == n && p < i)
  }

  /** An occupied "tried" slot must hold a tried id at the slot it hashes to. */
  predicate TriedCellFine(l: Layout, infos: Infos, t: Table, b: int, p: int)
    requires InTable(t, b, p)
  {
    t[b][p] != -1 ==>
      && t[b][p] in infos && infos[t[b][p]].inTried
      && b == l.TriedBucket(infos[t[b][p]].service) && p == l.TriedPosition(infos[t[b][p]].service)
  }

  /** The scan has passed the slot of `m` and found `m` there. */
  predicate Settled(l: Layout, infos: Infos, t: Table, m: int, n: int, i: int)
    requires m in infos
  {
    var b, p := l.TriedBucket(infos[m].service), l.TriedPosition(infos[m].service);
    m != -1 && InTable(t, b, p) && Before(b, p, n, i) && t[b][p] == m
  }

  ghost predicate TriedScan(l: Layout, infos: Infos, t: Table, setTried: set<int>, n: int, i: int) {
    && (forall b, p :: InTable(t, b, p) && Before(b, p, n, i) ==> TriedCellFine(l, infos, t, b, p))
    && (forall m :: m in setTried <==> m in infos && infos[m].inTried && !Settled(l, infos, t, m, n, i))
  }

  /** One cell of the scan: a fine cell holds an id that is still expected. */
  lemma TriedScanStep(l: Layout, infos: Infos, t: Table, setTried: set<int>, n: int, i: int)
    requires TriedScan(l, infos, t, setTried, n, i) && InTable(t, n, i) && TriedCellFine(l, infos, t, n, i)
    ensures t[n][i] == -1 || t[n][i] in setTried
    ensures TriedScan(l, infos, t, if t[n][i] == -1 then setTried else setTried - {t[n][i]}, n, i + 1)
  {
    var rest := if t[n][i] == -1 then setTried else setTried - {t[n][i]};
    forall m ensures m in rest <==> m in infos && infos[m].inTried && !Settled(l, infos, t, m, n, i + 1) {
      if m in infos {
        var b, p := l.TriedBucket(infos[m].service), l.TriedPosition(infos[m].service);
        assert Before(b, p, n, i + 1) <==> Before(b, p, n, i) || (b == n && p == i);
      }
    }
  }

  lemma TriedScanEnd(l: Layout, infos: Infos, t: Table, setTried: set<int>)
    requires Sized(t, l.triedBuckets, l.bucketSize) && TriedScan(l, infos, t, setTried, |t|, 0)
    ensures setTried == {} <==> TriedOk(l, infos, t) && -1 !in TriedIds(infos)
  {
    EmptyOrNot(setTried);
    forall b, p | InTable(t, b, p) && t[b][p] != -1 ensures TriedCellFine(l, infos, t, b, p) {
      assert Before(b, p, |t|, 0);
    }
  }

  method CheckTried(l: Layout, infos: Infos, t: Table, expected: set<int>) returns (err: int)
    requires Sized(t, l.triedBuckets, l.bucketSize) && expected == TriedIds(infos)
    ensures err == 0 <==> TriedOk(l, infos, t) && -1 !in expected
  {
    var setTried := expected;
    var n := 0;
    while n < |t|
      invariant 0 <= n <= |t|
      invariant TriedScan(l, infos, t, setTried, n, 0)
    {
      var i := 0;
      while i < |t[n]|
        invariant 0 <= i <= |t[n]|
        invariant TriedScan(l, infos, t, setTried, n, i)
      {
        if TriedCellFine(l, infos, t, n, i) {
          TriedScanStep(l, infos, t, setTried, n, i);
        }
        if t[n][i] != -1 {
          if t[n][i] !in setTried {
            return -11;
          }
          if l.TriedBucket(infos[t[n][i]].service) != n {
            return -17;
          }
          if l.Position(false, n, infos[t[n][i]].service) != i {
            return -18;
          }
          setTried := setTried - {t[n][i]};
        }
        i := i + 1;
      }
      n := n + 1;
    }
    TriedScanEnd(l, infos, t, setTried);
    err := if setTried != {} then -13 else 0;
  }

  /** The slots of an id that the scan has passed. */
  ghost function HeldBefore(t: Table, m: int, n: int, i: int): (slots: set<(int, int)>)
    ensures forall b, p :: (b, p) in slots <==> InTable(t, b, p) && t[b][p] == m && Before(b, p, n, i)
    ensures slots <= Held(t, m)
  {
    set slot | slot in Held(t, m) && Before(slot.0, slot.1, n, i)
  }

  lemma HeldBeforeStep(t: Table, m: int, n: int, i: int)
    requires InTable(t, n, i)
    ensures |HeldBefore(t, m, n, i + 1)| == |HeldBefore(t, m, n, i)| + (if t[n][i] == m then 1 else 0)
  {
    var before, after := HeldBefore(t, m, n, i), HeldBefore(t, m, n, i + 1);
    forall b, p ensures (b, p) in after <==> (b, p) in before || (t[n][i] == m && b == n && p == i) {
      assert Before(b, p, n, i + 1) <==> Before(b, p, n, i) || (b == n && p == i);
    }
    assert after == if t[n][i] == m then before + {(n, i)} else before;
  }

  lemma HeldBeforeRow(t: Table, m: int, n: int)
    requires 0 <= n < |t|
    ensures HeldBefore(t, m, n + 1, 0) == HeldBefore(t, m, n, |t[n]|)
  {}

  lemma HeldBeforeEnds(t: Table, m: int)
    ensures HeldBefore(t, m, 0, 0) == {} && HeldBefore(t, m, |t|, 0) == Held(t, m)
  {}

  lemma HeldMore(t: Table, m: int, n: int, i: int)
    requires InTable(t, n, i) && t[n][i] == m
    ensures |HeldBefore(t, m, n, i)| < |Held(t, m)|
  {
    assert HeldBefore(t, m, n, i) + {(n, i)} <= Held(t, m);
    SubsetSize(HeldBefore(t, m, n, i) + {(n, i)}, Held(t, m));
  }

  lemma {:induction false} SubsetSize(a: set<(int, int)>, b: set<(int, int)>)
    requires a <= b
    ensures |a| <= |b|
  {
    if a != {} {
      var x :| x in a;
      SubsetSize(a - {x}, b - {x});
    }
  }

  predicate NewCellFine(l: Layout, infos: Infos, t: Table, b: int, p: int)
    requires InTable(t, b, p)
  {
    t[b][p] != -1 ==>
      t[b][p] in infos && !infos[t[b][p]].inTried && b >= 0 && p == l.Position(true, b, infos[t[b][p]].service)
  }

  /** How many references of `m` the scan still has to find. */
  ghost predicate Owed(infos: Infos, t: Table, mapNew: map<int, int>, m: int, n: int, i: int)
    requires m in infos
  {
    var passed := if m == -1 then 0 else |HeldBefore(t, m, n, i)|;
    && passed <= infos[m].refCount
    && (m in mapNew <==> passed < infos[m].refCount)
    && (m in mapNew ==> mapNew[m] == infos[m].refCount - passed)
  }

  ghost predicate NewScan(l: Layout, infos: Infos, t: Table, mapNew: map<int, int>, n: int, i: int) {
    && (forall b, p :: InTable(t, b, p) && Before(b, p, n, i) ==> NewCellFine(l, infos, t, b, p))
    && (forall m :: m in mapNew ==> m in infos && !infos[m].inTried)
    && (forall m :: m in infos && !infos[m].inTried ==> Owed(infos, t, mapNew, m, n, i))
  }

  lemma NewScanStep(l: Layout, infos: Infos, t: Table, mapNew: map<int, int>, n: int, i: int)
    requires NewScan(l, infos, t, mapNew, n, i) && InTable(t, n, i) && NewCellFine(l, infos, t, n, i)
    requires t[n][i] == -1 || t[n][i] in mapNew
    ensures var x := t[n][i];
            NewScan(l, infos, t, if x == -1 then mapNew else if mapNew[x] == 1 then mapNew - {x}
                                 else mapNew[x := mapNew[x] - 1], n, i + 1)
  {
    var x := t[n][i];
    var rest := if x == -1 then mapNew else if mapNew[x] == 1 then mapNew - {x} else mapNew[x := mapNew[x] - 1];
    forall m | m in infos && !infos[m].inTried ensures Owed(infos, t, rest, m, n, i + 1) {
      assert Owed(infos, t, mapNew, m, n, i);
      HeldBeforeStep(t, m, n, i);
    }
  }

  lemma NewScanStart(l: Layout, infos: Infos, t: Table, mapNew: map<int, int>)
    requires mapNew.Keys == NewIds(infos, {}) && forall m :: m in mapNew ==> mapNew[m] == infos[m].refCount
    requires forall m :: m in infos && !infos[m].inTried ==> infos[m].refCount >= 1
    ensures NewScan(l, infos, t, mapNew, 0, 0)
  {
    forall m | m in infos && !infos[m].inTried ensures Owed(infos, t, mapNew, m, 0, 0) {
      HeldBeforeEnds(t, m);
      assert m in NewIds(infos, {});
    }
    forall m | m in mapNew ensures m in infos && !infos[m].inTried {
      assert m in NewIds(infos, {});
    }
  }

  lemma NewScanRow(l: Layout, infos: Infos, t: Table, mapNew: map<int, int>, n: int)
    requires 0 <= n < |t| && NewScan(l, infos, t, mapNew, n, |t[n]|)
    ensures NewScan(l, infos, t, mapNew, n + 1, 0)
  {
    forall m | m in infos && !infos[m].inTried ensures Owed(infos, t, mapNew, m, n + 1, 0) {
      assert Owed(infos, t, mapNew, m, n, |t[n]|);
      HeldBeforeRow(t, m, n);
    }
  }

  /** A cell that cannot be charged to its id shows that the table is not consistent. */
  lemma NewScanStuck(l: Layout, infos: Infos, t: Table, mapNew: map<int, int>, n: int, i: int)
    requires NewScan(l, infos, t, mapNew, n, i) && InTable(t, n, i) && t[n][i] != -1 && t[n][i] !in mapNew
    ensures !NewOk(l, infos, t, {})
  {
    var x := t[n][i];
    if NewOk(l, infos, t, {}) {
      assert Owed(infos, t, mapNew, x, n, i);
      HeldMore(t, x, n, i);
      assert false;
    }
  }

  lemma TriedHoldsNone(l: Layout, infos: Infos, t: Table, m: int, b: int, p: int)
    requires m in infos && infos[m].inTried && m != -1
    requires InTable(t, b, p) ==> NewCellFine(l, infos, t, b, p)
    ensures (b, p) !in Held(t, m)
  {}

  lemma NewScanEnd(l: Layout, infos: Infos, t: Table, mapNew: map<int, int>)
    requires Sized(t, l.newBuckets, l.bucketSize) && NewScan(l, infos, t, mapNew, |t|, 0)
    requires forall m :: m in infos ==> if infos[m].inTried then infos[m].refCount == 0 && m != -1
                                        else 1 <= infos[m].refCount <= NEW_BUCKETS_PER_ADDRESS
    ensures mapNew == map[] <==> NewOk(l, infos, t, {})
  {
    forall b, p | InTable(t, b, p) ensures NewCellFine(l, infos, t, b, p) {
      assert Before(b, p, |t|, 0);
    }
    forall m | m in infos && infos[m].inTried ensures Held(t, m) == {} {
      forall b, p ensures (b, p) !in Held(t, m) {
        TriedHoldsNone(l, infos, t, m, b, p);
      }
    }
    forall m | m in infos && !infos[m].inTried && m != -1
      ensures m !in mapNew <==> infos[m].refCount == |Held(t, m)|
    {
      assert Owed(infos, t, mapNew, m, |t|, 0);
      HeldBeforeEnds(t, m);
    }
    if -1 in infos {
      assert Owed(infos, t, mapNew, -1, |t|, 0);
    }
    if NewOk(l, infos, t, {}) {
      forall m ensures m !in mapNew {}
      assert mapNew == map[];
    }
  }

  method CheckNew(l: Layout, infos: Infos, t: Table, expected: map<int, int>) returns (err: int)
    requires Sized(t, l.newBuckets, l.bucketSize)
    requires expected.Keys == NewIds(infos, {}) && forall m :: m in expected ==> expected[m] == infos[m].refCount
    requires forall m :: m in infos ==> if infos[m].inTried then infos[m].refCount == 0 && m != -1
                                        else 1 <= infos[m].refCount <= NEW_BUCKETS_PER_ADDRESS
    ensures err == 0 <==> NewOk(l, infos, t, {})
  {
    hide Owed, NewIds;
    var mapNew := expected;
    NewScanStart(l, infos, t, mapNew);
    var n := 0;
    while n < |t|
      invariant 0 <= n <= |t|
      invariant NewScan(l, infos, t, mapNew, n, 0)
    {
      var i := 0;
      while i < |t[n]|
        invariant 0 <= i <= |t[n]|
        invariant NewScan(l, infos, t, mapNew, n, i)
      {
        var x := t[n][i];
        if x != -1 {
          if x !in mapNew {
            NewScanStuck(l, infos, t, mapNew, n, i);
            return -12;
          }
          if l.Position(true, n, infos[x].service) != i {
            return -19;
          }
        }
        NewScanStep(l, infos, t, mapNew, n, i);
        if x != -1 {
          if mapNew[x] == 1 {
            mapNew := mapNew - {x};
          } else {
            mapNew := mapNew[x := mapNew[x] - 1];
          }
        }
        i := i + 1;
      }
      NewScanRow(l, infos, t, mapNew, n);
      n := n + 1;
    }
    NewScanEnd(l, infos, t, mapNew);
    err := if mapNew != map[] then -15 else 0;
  }

  /** Check_: the code it returns is 0 if and only if the books are consistent. */
  method Check(l: Layout, infos: Infos, byAddr: map<NetAddr, int>, random: seq<int>,
               nTried: int, nNew: int, tried: Table, news: Table) returns (err: int)
    requires Sized(tried, l.triedBuckets, l.bucketSize) && Sized(news, l.newBuckets, l.bucketSize)
    ensures err == 0 <==> Consistent(l, infos, byAddr, random, nTried, nNew, tried, news)
  {
    hide TriedOk, NewOk, TriedIds, NewIds;
    if |random| != nTried + nNew {
      return -7;
    }
    var setTried, mapNew;
    err, setTried, mapNew := CheckEntries(infos, byAddr, random);
    if err != 0 {
      return;
    }
    if |setTried| != nTried {
      return -9;
    }
    if |mapNew| != nNew {
      return -10;
    }
    err := CheckTried(l, infos, tried, setTried);
    if err != 0 {
      MinusOne(l, infos, news);
      return;
    }
    TriedIsSet(infos);
    err := CheckNew(l, infos, news, mapNew);
  }

  lemma MinusOne(l: Layout, infos: Infos, news: Table)
    ensures NewOk(l, infos, news, {}) ==> -1 !in TriedIds(infos)
  {}

  lemma TriedIsSet(infos: Infos)
    ensures forall m :: m in infos && infos[m].inTried <==> m in TriedIds(infos)
  {}

  /** In every state between two calls the check passes. */
  method CheckPasses(m: Manager) returns (err: int)
    requires m.Valid()
    ensures err == 0
  {
    hide AddrOk, RandomOk, IdsOk, StatsOk;
    ValidIsConsistent(m.layout, m.mapInfo, m.mapAddr, m.vRandom, m.vvTried, m.vvNew, m.nIdCount);
    err := Check(m.layout, m.mapInfo, m.mapAddr, m.vRandom, m.nTried, m.nNew, m.vvTried, m.vvNew);
  }

  lemma ValidIsConsistent(l: Layout, infos: Infos, byAddr: map<NetAddr, int>, random: seq<int>,
                          tried: Table, news: Table, bound: int)
    requires RandomOk(infos, random) && AddrOk(infos, byAddr) && StatsOk(infos) && IdsOk(infos, bound)
    requires TriedOk(l, infos, tried) && NewOk(l, infos, news, {})
    ensures Consistent(l, infos, byAddr, random, |TriedIds(infos)|, |NewIds(infos, {})|, tried, news)
  {
    forall n | n in infos ensures EntryFine(infos, byAddr, random, n) {
      if infos[n].inTried {
        NotHeld(l, infos, news, {}, n);
      }
    }
    RandomSize(infos, random);
    assert infos.Keys == TriedIds(infos) + NewIds(infos, {});
  }

  /** A bijection between positions and ids: the vector is as long as the map is large. */
  lemma {:induction false} RandomSize(infos: Infos, random: seq<int>)
    requires RandomOk(infos, random)
    ensures |random| == |infos.Keys|
  {
    if random == [] {
      forall n ensures n !in infos.Keys {}
      assert infos.Keys == {};
    } else {
      var last := random[|random| - 1];
      RandomDrop(infos, random, last);
      RandomSize(infos - {last}, random[..|random| - 1]);
      assert (infos - {last}).Keys == infos.Keys - {last};
    }
  }
}
