/**
The stochastic address manager of src/addrman.h and src/addrman.cpp.

Every known address has an id.  An id is either in the "tried" table, at the one slot its hash
selects, or in up to eight slots of the "new" table, counted by its reference count.  A vector in
random order with back pointers and an index by network address are kept alongside.  Hash
functions, times and random choices are parameters.
*/
module AddrMan {
  import opened Numbers

  type NetAddr = nat

  datatype Service = Service(ip: NetAddr, port: nat)

  datatype Address = Address(service: Service, time: int, services: bv64)

  /** CAddrInfo. */
  datatype AddrInfo = AddrInfo(addr: Address, source: NetAddr, lastTry: int, lastCountAttempt: int,
                               lastSuccess: int, attempts: int, refCount: int, inTried: bool, randomPos: int)
  {
    const service := addr.service

    /** Whether the statistics are bad enough to drop the entry. */
    predicate IsTerrible(now: int) {
      if lastTry != 0 && lastTry >= now - 60 then false
      else
        || addr.time > now + 10 * 60
        || addr.time == 0 || now - addr.time > HORIZON_DAYS * 24 * 60 * 60
        || (lastSuccess == 0 && attempts >= RETRIES)
        || (now - lastSuccess > MIN_FAIL_DAYS * 24 * 60 * 60 && attempts >= MAX_FAILURES)
    }
  }

  const HORIZON_DAYS := 30
  const RETRIES := 3
  const MAX_FAILURES := 10
  const MIN_FAIL_DAYS := 7
  const REPLACEMENT_HOURS := 4
  const TEST_WINDOW := 40 * 60
  const NEW_BUCKETS_PER_ADDRESS := 8
  const TRIED_COLLISION_SIZE := 10

  /**
   Table sizes, the keyed hashes that place an address (fixed between two calls of Clear), and the
   two address tests that belong to the network code.
   */
  datatype RawLayout = Layout(triedBuckets: nat, newBuckets: nat, bucketSize: nat, triedHash: Service -> nat,
                              newHash: (NetAddr, NetAddr) -> nat, positionHash: (bool, nat, Service) -> nat,
                              routable: NetAddr -> bool, valid: NetAddr -> bool)
  {
    predicate Valid() { triedBuckets > 0 && newBuckets > 0 && bucketSize > 0 }

    function TriedBucket(s: Service): (b: nat)
      requires Valid()
      ensures b < triedBuckets
    {
      triedHash(s) % triedBuckets
    }

    function NewBucket(ip: NetAddr, source: NetAddr): (b: nat)
      requires Valid()
      ensures b < newBuckets
    {
      newHash(ip, source) % newBuckets
    }

    function Position(isNew: bool, bucket: nat, s: Service): (p: nat)
      requires Valid()
      ensures p < bucketSize
    {
      positionHash(isNew, bucket, s) % bucketSize
    }

    function TriedPosition(s: Service): (p: nat)
      requires Valid()
      ensures p < bucketSize
    {
      Position(false, TriedBucket(s), s)
    }
  }

  type Layout = l: RawLayout | l.Valid() witness Layout(1, 1, 1, s => 0, (a, b) => 0, (n, b, s) => 0, a => true, a => true)

  // ---------- bucket tables ----------

  /** Buckets of ids; -1 marks a free slot. */
  type Table = seq<seq<int>>

  predicate InTable(t: Table, b: int, p: int) {
    0 <= b < |t| && 0 <= p < |t[b]|
  }

  predicate Sized(t: Table, rows: nat, cols: nat) {
    |t| == rows && forall b :: 0 <= b < rows ==> |t[b]| == cols
  }

  function Put(t: Table, b: int, p: int, v: int): (r: Table)
    requires InTable(t, b, p)
    ensures |r| == |t| && forall c :: 0 <= c < |t| ==> |r[c]| == |t[c]|
    ensures forall c, q :: InTable(t, c, q) ==> r[c][q] == if c == b && q == p then v else t[c][q]
  {
    t[b := t[b][p := v]]
  }

  lemma PutSame(t: Table, b: int, p: int)
    requires InTable(t, b, p)
    ensures Put(t, b, p, t[b][p]) == t
  {
    assert t[b][p := t[b][p]] == t[b];
  }

  lemma PutTwice(t: Table, b: int, p: int, v: int, w: int)
    requires InTable(t, b, p)
    ensures Put(Put(t, b, p, v), b, p, w) == Put(t, b, p, w)
  {
    assert t[b][p := v][p := w] == t[b][p := w];
  }

  ghost predicate AllFree(t: Table) {
    forall b, p :: InTable(t, b, p) ==> t[b][p] == -1
  }

  /** The slots that hold an id. */
  ghost function Held(t: Table, n: int): (slots: set<(int, int)>)
    ensures forall b, p :: (b, p) in slots <==> InTable(t, b, p) && t[b][p] == n
  {
    set b: int, p: int | 0 <= b < |t| && 0 <= p < |t[b]| && t[b][p] == n :: (b, p)
  }

  lemma HeldPut(t: Table, b: int, p: int, v: int, n: int)
    requires InTable(t, b, p)
    ensures Held(Put(t, b, p, v), n) == if v == n then Held(t, n) + {(b, p)} else Held(t, n) - {(b, p)}
  {
    var r := Put(t, b, p, v);
    forall c, q ensures (c, q) in Held(r, n) <==> InTable(t, c, q) && (if c == b && q == p then v == n else t[c][q] == n) {}
  }

  /** Reference counts move with the slots: freeing a held slot loses one, taking a free slot gains one. */
  lemma HeldCount(t: Table, b: int, p: int, v: int, n: int)
    requires InTable(t, b, p)
    ensures |Held(Put(t, b, p, v), n)| ==
            |Held(t, n)| + (if v == n then 1 else 0) - (if t[b][p] == n then 1 else 0)
  {
    HeldPut(t, b, p, v, n);
    assert (b, p) in Held(t, n) <==> t[b][p] == n;
  }

  // ---------- the invariant ----------

  type Infos = map<int, AddrInfo>

  /** vRandom lists every id once, and nRandomPos points back into it. */
  ghost predicate RandomOk(infos: Infos, random: seq<int>) {
    && (forall n :: n in infos ==> 0 <= infos[n].randomPos < |random| && random[infos[n].randomPos] == n)
    && (forall i :: 0 <= i < |random| ==> random[i] in infos && infos[random[i]].randomPos == i)
  }

  /** mapAddr is the exact index of ids by network address. */
  ghost predicate AddrOk(infos: Infos, byAddr: map<NetAddr, int>) {
    && (forall n :: n in infos ==> infos[n].service.ip in byAddr && byAddr[infos[n].service.ip] == n)
    && (forall a :: a in byAddr ==> byAddr[a] in infos && infos[byAddr[a]].service.ip == a)
  }

  /** Every occupied "new" slot is at the position its id hashes to, and reference counts are exact. */
  ghost predicate NewOk(l: Layout, infos: Infos, t: Table, limbo: set<int>) {
    && Sized(t, l.newBuckets, l.bucketSize)
    && -1 !in infos
    && (forall b, p :: InTable(t, b, p) && t[b][p] != -1 ==>
          && t[b][p] in infos && !infos[t[b][p]].inTried && t[b][p] !in limbo
          && p == l.Position(true, b, infos[t[b][p]].service))
    && (forall n :: n in infos ==> infos[n].refCount == |Held(t, n)|)
    && (forall n :: n in infos && !infos[n].inTried && n !in limbo ==>
          1 <= infos[n].refCount <= NEW_BUCKETS_PER_ADDRESS)
  }

  /** Tried ids and occupied "tried" slots correspond one to one, at the computed positions. */
  ghost predicate TriedOk(l: Layout, infos: Infos, t: Table) {
    && Sized(t, l.triedBuckets, l.bucketSize)
    && (forall b, p :: InTable(t, b, p) && t[b][p] != -1 ==>
          && t[b][p] in infos && infos[t[b][p]].inTried
          && b == l.TriedBucket(infos[t[b][p]].service) && p == l.TriedPosition(infos[t[b][p]].service))
    && (forall n :: n in infos && infos[n].inTried ==>
          t[l.TriedBucket(infos[n].service)][l.TriedPosition(infos[n].service)] == n)
  }

  ghost predicate StatsOk(infos: Infos) {
    forall n :: n in infos ==> StatsFine(infos[n])
  }

  ghost predicate IdsOk(infos: Infos, bound: int) {
    bound >= 0 && forall n :: n in infos ==> 0 <= n < bound
  }

  ghost function TriedIds(infos: Infos): set<int> {
    set n | n in infos && infos[n].inTried
  }

  ghost function NewIds(infos: Infos, limbo: set<int>): set<int> {
    set n | n in infos && !infos[n].inTried && n !in limbo
  }

  /** Ids in `limbo` are in no table and count as neither new nor tried. */
  ghost predicate LimboOk(infos: Infos, limbo: set<int>) {
    forall n :: n in limbo ==> n in infos && !infos[n].inTried
  }

  /** The two maps agree on everything that decides where an entry is stored. */
  ghost predicate SamePlacement(a: Infos, b: Infos) {
    && (forall n :: n in a <==> n in b)
    && (forall n :: n in a ==> a[n].service == b[n].service && a[n].refCount == b[n].refCount
                               && a[n].inTried == b[n].inTried)
  }

  /** Moving random positions or statistics disturbs neither table nor index. */
  lemma PlacementKept(l: Layout, a: Infos, b: Infos, byAddr: map<NetAddr, int>, news: Table, tried: Table, limbo: set<int>)
    requires SamePlacement(a, b)
    ensures AddrOk(a, byAddr) ==> AddrOk(b, byAddr)
    ensures NewOk(l, a, news, limbo) ==> NewOk(l, b, news, limbo)
    ensures TriedOk(l, a, tried) ==> TriedOk(l, b, tried)
    ensures LimboOk(a, limbo) ==> LimboOk(b, limbo)
    ensures TriedIds(a) == TriedIds(b) && NewIds(a, limbo) == NewIds(b, limbo)
  {
    TriedFrame(l, a, b, tried);
    NewFrame(l, a, b, news, limbo, limbo);
    if AddrOk(a, byAddr) {
      forall x | x in byAddr ensures byAddr[x] in b && b[byAddr[x]].service.ip == x {
        assert byAddr[x] in a;
      }
    }
  }

  /** The "tried" side only looks at ids that are in it. */
  lemma TriedFrame(l: Layout, a: Infos, b: Infos, t: Table)
    requires forall n :: n in a && a[n].inTried ==> n in b && b[n].inTried && a[n].service == b[n].service
    requires forall n :: n in b && b[n].inTried ==> n in a && a[n].inTried
    ensures TriedOk(l, a, t) ==> TriedOk(l, b, t)
    ensures TriedIds(a) == TriedIds(b)
  {
    forall n ensures n in TriedIds(a) <==> n in TriedIds(b) {}
  }

  /** The "new" side only looks at reference counts and at the ids that are new and not in limbo. */
  lemma NewFrame(l: Layout, a: Infos, b: Infos, t: Table, limbo: set<int>, limbo': set<int>)
    requires forall n :: n in a <==> n in b
    requires forall n :: n in a ==> a[n].service == b[n].service && a[n].refCount == b[n].refCount
    requires forall n :: n in a ==> (!a[n].inTried && n !in limbo <==> !b[n].inTried && n !in limbo')
    ensures NewOk(l, a, t, limbo) ==> NewOk(l, b, t, limbo')
    ensures NewIds(a, limbo) == NewIds(b, limbo')
  {
    forall n ensures n in NewIds(a, limbo) <==> n in NewIds(b, limbo') {}
  }

  lemma NotHeld(l: Layout, infos: Infos, t: Table, limbo: set<int>, n: int)
    requires NewOk(l, infos, t, limbo) && n != -1 && (n in infos ==> infos[n].inTried || n in limbo)
    ensures Held(t, n) == {}
    ensures n in infos ==> infos[n].refCount == 0
  {
    forall b, p ensures (b, p) !in Held(t, n) {
      if InTable(t, b, p) && t[b][p] == n { assert false; }
    }
  }

  /** An id found in the "new" table is new, referenced and not in limbo. */
  lemma SlotIsNew(l: Layout, infos: Infos, t: Table, limbo: set<int>, b: int, p: int)
    requires NewOk(l, infos, t, limbo) && InTable(t, b, p) && t[b][p] != -1
    ensures t[b][p] in infos && t[b][p] !in limbo && !infos[t[b][p]].inTried && infos[t[b][p]].refCount > 0
  {
    assert (b, p) in Held(t, t[b][p]);
  }

  /** An occupied "tried" slot is the one its occupant hashes to. */
  lemma SlotIsTried(l: Layout, infos: Infos, t: Table, b: int, p: int)
    requires TriedOk(l, infos, t) && InTable(t, b, p) && t[b][p] != -1
    ensures t[b][p] in infos && infos[t[b][p]].inTried
    ensures b == l.TriedBucket(infos[t[b][p]].service) && p == l.TriedPosition(infos[t[b][p]].service)
  {}

  lemma TriedSized(l: Layout, infos: Infos, t: Table)
    requires TriedOk(l, infos, t)
    ensures Sized(t, l.triedBuckets, l.bucketSize)
  {}

  lemma NewCounted(l: Layout, infos: Infos, t: Table, limbo: set<int>, n: int)
    requires NewOk(l, infos, t, limbo) && n in infos && !infos[n].inTried && n !in limbo
    ensures 1 <= infos[n].refCount <= NEW_BUCKETS_PER_ADDRESS
  {}

  lemma NewSized(l: Layout, infos: Infos, t: Table, limbo: set<int>)
    requires NewOk(l, infos, t, limbo)
    ensures Sized(t, l.newBuckets, l.bucketSize) && -1 !in infos
  {}

  /** Delete: an id in limbo leaves the books. */
  lemma DropKeeps(l: Layout, infos: Infos, news: Table, tried: Table, limbo: set<int>, n: int)
    requires NewOk(l, infos, news, limbo) && TriedOk(l, infos, tried) && LimboOk(infos, limbo) && n in limbo
    ensures NewOk(l, infos - {n}, news, limbo - {n}) && TriedOk(l, infos - {n}, tried)
    ensures LimboOk(infos - {n}, limbo - {n})
    ensures TriedIds(infos - {n}) == TriedIds(infos) && NewIds(infos - {n}, limbo - {n}) == NewIds(infos, limbo)
  {
    TriedFrame(l, infos, infos - {n}, tried);
  }

  /** Create: a brand-new id enters in limbo. */
  lemma CreateKeeps(l: Layout, infos: Infos, news: Table, tried: Table, limbo: set<int>, n: int, i: AddrInfo)
    requires NewOk(l, infos, news, limbo) && TriedOk(l, infos, tried) && LimboOk(infos, limbo)
    requires n !in infos && n != -1 && !i.inTried && i.refCount == 0
    ensures NewOk(l, infos[n := i], news, limbo + {n}) && TriedOk(l, infos[n := i], tried)
    ensures LimboOk(infos[n := i], limbo + {n})
    ensures TriedIds(infos[n := i]) == TriedIds(infos) && NewIds(infos[n := i], limbo + {n}) == NewIds(infos, limbo)
  {
    NotHeld(l, infos, news, limbo, n);
    TriedFrame(l, infos, infos[n := i], tried);
  }

  /** One "new" slot of `n` is freed; without further slots `n` goes into limbo. */
  lemma UnrefKeeps(l: Layout, infos: Infos, t: Table, limbo: set<int>, b: int, p: int, n: int)
    requires NewOk(l, infos, t, limbo) && InTable(t, b, p) && t[b][p] == n != -1
    ensures n in infos && infos[n].refCount >= 1 && n !in limbo && !infos[n].inTried
    ensures var after := infos[n := infos[n].(refCount := infos[n].refCount - 1)];
            var limbo' := if infos[n].refCount == 1 then limbo + {n} else limbo;
            && NewOk(l, after, Put(t, b, p, -1), limbo')
            && |NewIds(after, limbo')| == |NewIds(infos, limbo)| - (if infos[n].refCount == 1 then 1 else 0)
  {
    var after := infos[n := infos[n].(refCount := infos[n].refCount - 1)];
    var limbo' := if infos[n].refCount == 1 then limbo + {n} else limbo;
    var t' := Put(t, b, p, -1);
    forall m | m in after ensures after[m].refCount == |Held(t', m)| {
      HeldCount(t, b, p, -1, m);
    }
    forall c, q | InTable(t', c, q) && t'[c][q] == n ensures infos[n].refCount != 1 {
      assert (c, q) in Held(t', n);
    }
    NewIdsUnref(infos, after, limbo, n);
  }

  lemma NewIdsUnref(infos: Infos, after: Infos, limbo: set<int>, n: int)
    requires n in infos && n in after && !infos[n].inTried && n !in limbo
    requires after == infos[n := infos[n].(refCount := after[n].refCount)]
    ensures |NewIds(after, limbo)| == |NewIds(infos, limbo)|
    ensures |NewIds(after, limbo + {n})| == |NewIds(infos, limbo)| - 1
  {
    assert NewIds(after, limbo) == NewIds(infos, limbo);
    assert NewIds(after, limbo + {n}) == NewIds(infos, limbo) - {n};
  }

  /** A free "new" slot at the right position is given to `n`. */
  lemma RefKeeps(l: Layout, infos: Infos, t: Table, limbo: set<int>, b: int, p: int, n: int)
    requires NewOk(l, infos, t, limbo) && InTable(t, b, p) && t[b][p] == -1
    requires n in infos && !infos[n].inTried && infos[n].refCount < NEW_BUCKETS_PER_ADDRESS
    requires p == l.Position(true, b, infos[n].service)
    ensures var after := infos[n := infos[n].(refCount := infos[n].refCount + 1)];
            && NewOk(l, after, Put(t, b, p, n), limbo - {n})
            && |NewIds(after, limbo - {n})| == |NewIds(infos, limbo)| + (if n in limbo then 1 else 0)
  {
    var after := infos[n := infos[n].(refCount := infos[n].refCount + 1)];
    var t' := Put(t, b, p, n);
    forall m | m in after ensures after[m].refCount == |Held(t', m)| {
      HeldCount(t, b, p, n, m);
    }
    NewIdsRef(infos, after, limbo, n);
  }

  lemma NewIdsRef(infos: Infos, after: Infos, limbo: set<int>, n: int)
    requires n in infos && n in after && !infos[n].inTried && after == infos[n := infos[n].(refCount := after[n].refCount)]
    ensures |NewIds(after, limbo - {n})| == |NewIds(infos, limbo)| + (if n in limbo then 1 else 0)
  {
    if n in limbo {
      assert NewIds(after, limbo - {n}) == NewIds(infos, limbo) + {n};
    } else {
      assert NewIds(after, limbo - {n}) == NewIds(infos, limbo);
    }
  }

  /** An id leaves its "tried" slot for limbo. */
  lemma UntryKeeps(l: Layout, infos: Infos, t: Table, n: int)
    requires TriedOk(l, infos, t) && n in infos && infos[n].inTried
    ensures var after := infos[n := infos[n].(inTried := false)];
            var s := infos[n].service;
            && TriedOk(l, after, Put(t, l.TriedBucket(s), l.TriedPosition(s), -1))
            && |TriedIds(after)| == |TriedIds(infos)| - 1
  {
    assert TriedIds(infos[n := infos[n].(inTried := false)]) == TriedIds(infos) - {n};
  }

  /** An id in limbo takes its free "tried" slot. */
  lemma TryKeeps(l: Layout, infos: Infos, t: Table, n: int)
    requires TriedOk(l, infos, t) && -1 !in infos && n in infos && !infos[n].inTried
    requires t[l.TriedBucket(infos[n].service)][l.TriedPosition(infos[n].service)] == -1
    ensures var after := infos[n := infos[n].(inTried := true)];
            var s := infos[n].service;
            && TriedOk(l, after, Put(t, l.TriedBucket(s), l.TriedPosition(s), n))
            && |TriedIds(after)| == |TriedIds(infos)| + 1
  {
    var after := infos[n := infos[n].(inTried := true)];
    var s := infos[n].service;
    var t' := Put(t, l.TriedBucket(s), l.TriedPosition(s), n);
    forall m | m in after && after[m].inTried
      ensures t'[l.TriedBucket(after[m].service)][l.TriedPosition(after[m].service)] == m
    {
      if m != n {
        assert t[l.TriedBucket(infos[m].service)][l.TriedPosition(infos[m].service)] == m;
      }
    }
    assert TriedIds(after) == TriedIds(infos) + {n};
  }

  lemma RandomSwap(infos: Infos, random: seq<int>, i: nat, j: nat)
    requires RandomOk(infos, random) && i < |random| && j < |random| && i != j
    ensures random[i] != random[j]
    ensures var a, b := random[i], random[j];
            RandomOk(infos[a := infos[a].(randomPos := j)][b := infos[b].(randomPos := i)], random[i := b][j := a])
  {}

  lemma RandomDrop(infos: Infos, random: seq<int>, n: int)
    requires RandomOk(infos, random) && n in infos && infos[n].randomPos == |random| - 1
    ensures RandomOk(infos - {n}, random[..|random| - 1])
  {}

  lemma RandomCreate(infos: Infos, random: seq<int>, n: int, i: AddrInfo)
    requires RandomOk(infos, random) && n !in infos && i.randomPos == |random|
    ensures RandomOk(infos[n := i], random + [n])
  {}

  /** The parts of the books that Delete takes `n` out of besides the tables. */
  lemma IndexDrop(infos: Infos, byAddr: map<NetAddr, int>, bound: int, n: int)
    requires AddrOk(infos, byAddr) && StatsOk(infos) && IdsOk(infos, bound) && n in infos
    ensures AddrOk(infos - {n}, byAddr - {infos[n].service.ip})
    ensures StatsOk(infos - {n}) && IdsOk(infos - {n}, bound)
  {
    forall a | a in byAddr && a != infos[n].service.ip ensures byAddr[a] != n {}
  }

  lemma SameButDrop(a: Infos, b: Infos, n: int)
    requires SameBut(a, b, {})
    ensures SameBut(a, b - {n}, {n})
  {}

  lemma SameStats(a: Infos, b: Infos, bound: int)
    requires SameBut(a, b, {})
    ensures SamePlacement(a, b)
    ensures StatsOk(a) ==> StatsOk(b)
    ensures IdsOk(a, bound) ==> IdsOk(b, bound)
  {
    forall n | n in b ensures n in a && a[n] == b[n].(randomPos := a[n].randomPos) {}
  }

  /**
   Outside `but`, the same ids with the same data except for their position in vRandom; ids in
   `but` may have changed or gone, but no id appears and none changes its service.
   */
  ghost predicate SameBut(a: Infos, b: Infos, but: set<int>) {
    && (forall n :: n in b ==> n in a && b[n].service == a[n].service)
    && (forall n :: n !in but ==> (n in a <==> n in b))
    && (forall n :: n !in but && n in a ==> a[n] == b[n].(randomPos := a[n].randomPos))
  }

  predicate StatsFine(i: AddrInfo) {
    i.lastTry >= 0 && i.lastSuccess >= 0 && (i.inTried ==> i.lastSuccess > 0)
  }

  /** Replacing the data of one id leaves the index, the random order and the id range alone. */
  lemma UpdateFree(a: Infos, n: int, i: AddrInfo, byAddr: map<NetAddr, int>, random: seq<int>, bound: int)
    requires n in a && i.service == a[n].service && i.randomPos == a[n].randomPos
    ensures AddrOk(a, byAddr) ==> AddrOk(a[n := i], byAddr)
    ensures RandomOk(a, random) ==> RandomOk(a[n := i], random)
    ensures IdsOk(a, bound) ==> IdsOk(a[n := i], bound)
    ensures StatsOk(a) && StatsFine(i) ==> StatsOk(a[n := i])
  {
    if AddrOk(a, byAddr) {
      forall x | x in byAddr ensures byAddr[x] in a[n := i] && a[n := i][byAddr[x]].service.ip == x {
        assert byAddr[x] in a;
      }
    }
  }

  /** A referenced id is found by searching the computed position of every bucket. */
  lemma SomeSlot(l: Layout, infos: Infos, t: Table, limbo: set<int>, n: int) returns (b: int)
    requires NewOk(l, infos, t, limbo) && n in infos && infos[n].refCount > 0
    ensures 0 <= b < l.newBuckets && t[b][l.Position(true, b, infos[n].service)] == n
  {
    assert Held(t, n) != {};
    var slot :| slot in Held(t, n);
    b := slot.0;
    assert (slot.0, slot.1) in Held(t, n);
  }

  lemma SameButChain(a: Infos, b: Infos, c: Infos, x: set<int>, y: set<int>)
    requires SameBut(a, b, x) && SameBut(b, c, y)
    ensures SameBut(a, c, x + y)
  {}

  lemma SameButMore(a: Infos, b: Infos, c: Infos, x: int, y: int, z: int)
    requires SameBut(a, b, {x}) || SameBut(a, b, {x} + {y, z})
    requires SameBut(b, c, {x})
    ensures SameBut(a, c, {x, y, z})
  {}

  lemma SameButSame(a: Infos, x: int)
    ensures SameBut(a, a, {x, -1})
  {}

  lemma SameButAny(a: Infos, but: set<int>)
    ensures SameBut(a, a, but)
  {}

  /** Touching one entry first. */
  lemma SameButAfter(a: Infos, n: int, i: AddrInfo, c: Infos, but: set<int>)
    requires n in a && i.service == a[n].service && SameBut(a[n := i], c, but) && n in but
    ensures SameBut(a, c, but)
  {}

  lemma SameButWiden(a: Infos, b: Infos, x: int, y: int)
    requires SameBut(a, b, {x})
    ensures SameBut(a, b, {x, y})
  {}

  lemma SameButAt(a: Infos, b: Infos, but: set<int>, n: int)
    requires SameBut(a, b, but) && n in a && n !in but
    ensures n in b && b[n].(randomPos := 0) == a[n].(randomPos := 0)
  {}

  lemma SameButUpdate(a: Infos, n: int, i: AddrInfo)
    requires n in a && i.service == a[n].service
    ensures SameBut(a, a[n := i], {n})
  {}

  function Wrap(n: nat, rnd: nat, size: nat): (b: nat)
    requires size > 0
    ensures b < size
  {
    (n + rnd) % size
  }

  /** Starting at any offset, every bucket is visited. */
  lemma WrapCovers(b: nat, rnd: nat, size: nat)
    requires b < size
    ensures exists n :: 0 <= n < size && Wrap(n, rnd, size) == b
  {
    var r := rnd % size;
    var n := if b >= r then b - r else b - r + size;
    assert Wrap(n, rnd, size) == b by {
      assert rnd == rnd / size * size + r;
      var q := rnd / size + (if b >= r then 0 else 1);
      assert n + rnd == q * size + b;
      DivModUnique(n + rnd, q, b, size);
    }
  }

  /** The id known under exactly this service, or -1. */
  function KnownId(infos: Infos, byAddr: map<NetAddr, int>, s: Service): (id: int) {
    if s.ip in byAddr && byAddr[s.ip] in infos && infos[byAddr[s.ip]].service == s then byAddr[s.ip] else -1
  }

  lemma IndexFound(infos: Infos, byAddr: map<NetAddr, int>, ip: NetAddr)
    requires AddrOk(infos, byAddr) && ip in byAddr
    ensures byAddr[ip] in infos && infos[byAddr[ip]].service.ip == ip
  {}

  /** Slots of the "tried" table never become free again. */
  ghost predicate OccupiedKept(t: Table, t': Table) {
    && |t'| == |t|
    && (forall b :: 0 <= b < |t| ==> |t'[b]| == |t[b]|)
    && (forall b, p :: InTable(t, b, p) && t[b][p] != -1 ==> t'[b][p] != -1)
  }

  /** What ResolveCollisions_ and SelectTriedCollision_ rely on: colliding ids still collide. */
  ghost predicate CollisionsOk(l: Layout, infos: Infos, tried: Table, collisions: set<int>, bound: int) {
    && Sized(tried, l.triedBuckets, l.bucketSize)
    && forall c :: c in collisions ==>
         && 0 <= c < bound
         && (c in infos ==> tried[l.TriedBucket(infos[c].service)][l.TriedPosition(infos[c].service)] != -1)
  }

  /** Ids are not reused and keep their service, so collisions outlive everything that keeps slots occupied. */
  lemma CollisionsKept(l: Layout, a: Infos, b: Infos, t: Table, t': Table, collisions: set<int>, bound: int, bound': int)
    requires CollisionsOk(l, a, t, collisions, bound) && OccupiedKept(t, t') && bound <= bound'
    requires forall n :: n in b && n < bound ==> n in a && b[n].service == a[n].service
    ensures CollisionsOk(l, b, t', collisions, bound')
  {
    forall c | c in collisions && c in b
      ensures t'[l.TriedBucket(b[c].service)][l.TriedPosition(b[c].service)] != -1
    {
      assert InTable(t, l.TriedBucket(a[c].service), l.TriedPosition(a[c].service));
    }
  }

  /** Old ids keep their service, and at most the untried id `lost` is forgotten. */
  ghost predicate Survives(a: Infos, b: Infos, bound: int, lost: int) {
    && (forall n :: n in b && n < bound ==> n in a && b[n].service == a[n].service)
    && (forall n :: n in a && n !in b ==> n == lost && !a[n].inTried)
  }

  lemma SurvivesTouch(a: Infos, id: int, i: AddrInfo, c: Infos, bound: int, lost: int)
    requires id in a && i.service == a[id].service && i.inTried == a[id].inTried
    requires Survives(a[id := i], c, bound, lost)
    ensures Survives(a, c, bound, lost)
  {}

  lemma SurvivesSame(a: Infos, bound: int, t: Table)
    ensures Survives(a, a, bound, -1) && OccupiedKept(t, t)
  {}

  lemma SurvivesMakeTried(a: Infos, id: int, b: Infos, evicted: int, lost: int, bound: int)
    requires -1 !in a && SameBut(a, b, {id, evicted, lost})
    requires id in b && (evicted != -1 ==> evicted in b)
    requires lost in a ==> !a[lost].inTried
    ensures Survives(a, b, bound, lost)
  {}

  lemma SurvivesServices(a: Infos, b: Infos, bound: int, lost: int)
    requires Survives(a, b, bound, lost)
    ensures forall n :: n in b && n < bound ==> n in a && b[n].service == a[n].service
  {}

  lemma AllBounded(infos: Infos, bound: int)
    requires IdsOk(infos, bound)
    ensures forall n :: n in infos ==> 0 <= n < bound
  {}

  lemma IdBounded(infos: Infos, bound: int, id: int)
    requires IdsOk(infos, bound) && id in infos
    ensures 0 <= id < bound
  {}

  /** Who holds the "tried" slot of a service. */
  function Occupant(l: Layout, tried: Table, s: Service): int {
    var b, p := l.TriedBucket(s), l.TriedPosition(s);
    if InTable(tried, b, p) then tried[b][p] else -1
  }

  /** Whether the "new" slot that `source` selects for a service is free. */
  predicate FreeFor(l: Layout, news: Table, s: Service, source: NetAddr) {
    var b := l.NewBucket(s.ip, source);
    var p := l.Position(true, b, s);
    InTable(news, b, p) && news[b][p] == -1
  }

  /** An id is in the "new" slot that its own source selects. */
  predicate AtHome(l: Layout, news: Table, id: int, i: AddrInfo) {
    var b := l.NewBucket(i.service.ip, i.source);
    var p := l.Position(true, b, i.service);
    InTable(news, b, p) && news[b][p] == id
  }

  /**
   Whether an id takes the "new" slot that `source` selects: a free one, one held by a terrible entry, or, for an
   id without references, one held by an entry that has others.
   */
  predicate TakesSlot(l: Layout, infos: Infos, news: Table, id: int, s: Service, refs: int, source: NetAddr, now: int) {
    var b := l.NewBucket(s.ip, source);
    var p := l.Position(true, b, s);
    && InTable(news, b, p) && news[b][p] != id
    && (news[b][p] == -1 ||
        (news[b][p] in infos &&
         (infos[news[b][p]].IsTerrible(now) || (infos[news[b][p]].refCount > 1 && refs == 0))))
  }

  /** The "new" table once an id has taken, or not taken, its slot. */
  function NewAfter(l: Layout, infos: Infos, news: Table, id: int, s: Service, refs: int, source: NetAddr, now: int): Table {
    if TakesSlot(l, infos, news, id, s, refs, source, now)
    then Put(news, l.NewBucket(s.ip, source), l.Position(true, l.NewBucket(s.ip, source), s), id)
    else news
  }

  /** Hearing about an id does not change whether it takes a slot. */
  lemma NewAfterTouch(l: Layout, infos: Infos, news: Table, id: int, i: AddrInfo, source: NetAddr, now: int)
    requires id in infos && i.service == infos[id].service && i.refCount == infos[id].refCount
    ensures NewAfter(l, infos[id := i], news, id, i.service, i.refCount, source, now)
         == NewAfter(l, infos, news, id, i.service, i.refCount, source, now)
    ensures TakesSlot(l, infos[id := i], news, id, i.service, i.refCount, source, now)
        <==> TakesSlot(l, infos, news, id, i.service, i.refCount, source, now)
  {}

  /** An unknown id is in no slot, so its entry does not matter to the slot's occupant. */
  lemma NewAfterCreate(l: Layout, infos: Infos, news: Table, id: int, i: AddrInfo, source: NetAddr, now: int)
    requires id !in infos && NewOk(l, infos, news, {})
    ensures NewAfter(l, infos[id := i], news, id, i.service, 0, source, now)
         == NewAfter(l, infos, news, id, i.service, 0, source, now)
    ensures TakesSlot(l, infos[id := i], news, id, i.service, 0, source, now)
        <==> TakesSlot(l, infos, news, id, i.service, 0, source, now)
  {}

  /** An untried entry ends up in "tried" unless it must first be tested against an occupied slot. */
  ghost predicate Promoted(l: Layout, id: int, s: Service, testBeforeEvict: bool, tried: Table, tried': Table,
                           collisions: set<int>, collisions': set<int>, inTried: bool)
  {
    var b, p := l.TriedBucket(s), l.TriedPosition(s);
    && InTable(tried, b, p)
    && var collides := testBeforeEvict && tried[b][p] != -1;
    && inTried == !collides
    && tried' == (if collides then tried else Put(tried, b, p, id))
    && collisions' == if collides && |collisions| < TRIED_COLLISION_SIZE then collisions + {id} else collisions
  }

  lemma OccupiedPut(t: Table, b: int, p: int, v: int)
    requires InTable(t, b, p) && v != -1
    ensures OccupiedKept(t, Put(t, b, p, v))
  {}

  lemma IndexCreate(infos: Infos, byAddr: map<NetAddr, int>, bound: int, i: AddrInfo)
    requires AddrOk(infos, byAddr) && StatsOk(infos) && IdsOk(infos, bound)
    requires i.service.ip !in byAddr && StatsFine(i)
    ensures bound !in infos && bound >= 0
    ensures AddrOk(infos[bound := i], byAddr[i.service.ip := bound])
    ensures StatsOk(infos[bound := i]) && IdsOk(infos[bound := i], bound + 1)
  {
    forall a | a in byAddr ensures byAddr[a] != bound {}
  }

  lemma SurvivesAdd(a: Infos, n: int, i: AddrInfo, b: Infos, lost: int, now: int)
    requires n !in a && IdsOk(a, n) && SameBut(a[n := i], b, {n, lost})
    requires lost in a && lost !in b ==> !a[lost].inTried
    ensures Survives(a, b, n, lost)
    ensures n in b ==> b[n].service == i.service
  {}

  lemma SurvivesPlace(a: Infos, id: int, i: AddrInfo, b: Infos, lost: int, bound: int)
    requires id in a && i.service == a[id].service && i.inTried == a[id].inTried
    requires SameBut(a[id := i], b, {id, lost}) && id in b && id != lost
    requires lost in a && lost !in b ==> !a[lost].inTried
    ensures Survives(a, b, bound, lost)
  {}

  function Max(a: int, b: int): int {
    if a >= b then a else b
  }

  /** What hearing about a known address again does to its entry. */
  function Heard(info: AddrInfo, addr: Address, penalty: int, now: int): AddrInfo {
    var interval := if now - addr.time < 24 * 60 * 60 then 60 * 60 else 24 * 60 * 60;
    var time := if addr.time != 0 && (info.addr.time == 0 || info.addr.time < addr.time - interval - penalty)
                then Max(0, addr.time - penalty) else info.addr.time;
    info.(addr := info.addr.(time := time, services := info.addr.services | addr.services))
  }

  /** All entries but two are the same, up to their place in the random order. */
  ghost predicate OthersSame(a: Infos, b: Infos, x: int, y: int) {
    forall n :: n in a && n != x && n != y ==> n in b && b[n].(randomPos := 0) == a[n].(randomPos := 0)
  }

  /** All entries but one, and at most one more, are the same. */
  ghost predicate OneLost(a: Infos, b: Infos, x: int) {
    exists lost :: OthersSame(a, b, x, lost)
  }

  lemma OthersSameFrom(a: Infos, b: Infos, x: int, i: AddrInfo, y: int)
    requires SameBut(a[x := i], b, {x, y})
    ensures OthersSame(a, b, x, y)
  {}

  lemma OthersTouched(a: Infos, x: int, i: AddrInfo)
    ensures OthersSame(a, a[x := i], x, -1)
  {}

  /** A known entry and the "new" table after hearing about its address again. */
  ghost predicate HeardAgain(l: Layout, infos: Infos, news: Table, id: int, addr: Address, source: NetAddr, penalty: int,
                             now: int, draw: nat, i': AddrInfo, news': Table)
  {
    && id in infos
    && var i := Heard(infos[id], addr, penalty, now);
    var takes := MayMultiply(i, addr, draw) && TakesSlot(l, infos, news, id, i.service, i.refCount, source, now);
    && i'.(randomPos := 0) == i.(randomPos := 0, refCount := i.refCount + if takes then 1 else 0)
    && news' == if MayMultiply(i, addr, draw) then NewAfter(l, infos, news, id, i.service, i.refCount, source, now) else news
  }

  /** The entry of an unknown address. */
  function FirstHeard(addr: Address, source: NetAddr, penalty: int): AddrInfo {
    AddrInfo(addr.(time := Max(0, addr.time - penalty)), source, 0, 0, 0, 0, 1, false, 0)
  }

  /** Whether a known entry may get another slot, given the random draw. */
  predicate MayMultiply(info: AddrInfo, addr: Address, draw: nat) {
    && addr.time != 0 && (info.addr.time == 0 || addr.time > info.addr.time)
    && !info.inTried
    && 0 <= info.refCount < NEW_BUCKETS_PER_ADDRESS
    && (Pow2(info.refCount) > 1 ==> draw % Pow2(info.refCount) == 0)
  }

  lemma HeardSame(info: AddrInfo, addr: Address, penalty: int, now: int)
    ensures var h := Heard(info, addr, penalty, now);
            h.service == info.service && h == info.(addr := h.addr)
  {}

  function NodeLimit(known: nat, maxAddresses: nat, maxPct: nat): nat {
    var nodes := if maxPct != 0 then maxPct * known / 100 else known;
    if maxAddresses != 0 && maxAddresses < nodes then maxAddresses else nodes
  }

  predicate AllKnown(infos: Infos, ids: seq<int>) {
    forall i :: 0 <= i < |ids| ==> ids[i] in infos
  }

  /** The addresses of the ids that are worth passing on. */
  function Picked(infos: Infos, ids: seq<int>, now: int): (r: seq<Address>)
    requires AllKnown(infos, ids)
    ensures |r| <= |ids|
  {
    if ids == [] then [] else
      var last := infos[ids[|ids| - 1]];
      Picked(infos, ids[..|ids| - 1], now) + (if last.IsTerrible(now) then [] else [last.addr])
  }

  ghost predicate GoodOne(infos: Infos, a: Address, now: int) {
    exists n :: n in infos && infos[n].addr == a && !infos[n].IsTerrible(now)
  }

  ghost predicate GoodAmong(infos: Infos, ids: seq<int>, a: Address, now: int)
    requires AllKnown(infos, ids)
  {
    exists n :: n in ids && infos[n].addr == a && !infos[n].IsTerrible(now)
  }

  /** Distinct ids give distinct addresses, all good ones, and leave out no good one. */
  lemma {:induction false} PickedSound(infos: Infos, byAddr: map<NetAddr, int>, ids: seq<int>, now: int)
    requires AllKnown(infos, ids) && AddrOk(infos, byAddr)
    requires forall i, j :: 0 <= i < j < |ids| ==> ids[i] != ids[j]
    ensures var r := Picked(infos, ids, now);
            && (forall i, j :: 0 <= i < j < |r| ==> r[i].service.ip != r[j].service.ip)
            && (forall i :: 0 <= i < |r| ==> GoodAmong(infos, ids, r[i], now))
            && (forall n :: n in ids && !infos[n].IsTerrible(now) ==> infos[n].addr in r)
  {
    hide Picked, GoodAmong;
    if ids == [] {
      PickedNone(infos, now);
    } else {
      var init, last := ids[..|ids| - 1], ids[|ids| - 1];
      PickedSound(infos, byAddr, init, now);
      PickedLast(infos, ids, now);
      var r := Picked(infos, init, now);
      assert ids == init + [last];
      forall i | 0 <= i < |r|
        ensures r[i].service.ip != infos[last].service.ip && GoodAmong(infos, ids, r[i], now)
      {
        GoodApart(infos, byAddr, init, last, r[i], now);
      }
      if !infos[last].IsTerrible(now) { GoodLast(infos, ids, now); }
    }
  }

  lemma PickedNone(infos: Infos, now: int)
    ensures Picked(infos, [], now) == []
  {}

  lemma PickedLast(infos: Infos, ids: seq<int>, now: int)
    requires AllKnown(infos, ids) && ids != []
    ensures
      var last := infos[ids[|ids| - 1]];
      Picked(infos, ids, now) == Picked(infos, ids[..|ids| - 1], now) + (if last.IsTerrible(now) then [] else [last.addr])
  {}

  lemma PickedNext(infos: Infos, ids: seq<int>, n: nat, now: int)
    requires AllKnown(infos, ids) && n < |ids|
    ensures AllKnown(infos, ids[..n]) && AllKnown(infos, ids[..n + 1])
    ensures Picked(infos, ids[..n + 1], now) ==
      Picked(infos, ids[..n], now) + (if infos[ids[n]].IsTerrible(now) then [] else [infos[ids[n]].addr])
  {
    hide Picked;
    var t := ids[..n + 1];
    assert t[..|t| - 1] == ids[..n];
    PickedLast(infos, t, now);
  }

  /** An address picked before differs from the last one. */
  lemma GoodApart(infos: Infos, byAddr: map<NetAddr, int>, init: seq<int>, last: int, a: Address, now: int)
    requires AllKnown(infos, init) && last in infos && last !in init && AddrOk(infos, byAddr)
    requires GoodAmong(infos, init, a, now)
    ensures a.service.ip != infos[last].service.ip && GoodAmong(infos, init + [last], a, now)
  {
    var n :| n in init && infos[n].addr == a && !infos[n].IsTerrible(now);
    assert byAddr[infos[n].service.ip] == n && n in init + [last];
  }

  lemma GoodLast(infos: Infos, ids: seq<int>, now: int)
    requires AllKnown(infos, ids) && ids != [] && !infos[ids[|ids| - 1]].IsTerrible(now)
    ensures GoodAmong(infos, ids, infos[ids[|ids| - 1]].addr, now)
  {
    var n, a := ids[|ids| - 1], infos[ids[|ids| - 1]].addr;
    assert n in ids && infos[n].addr == a && !infos[n].IsTerrible(now);
  }

  lemma GoodIsGood(infos: Infos, ids: seq<int>, a: Address, now: int)
    requires AllKnown(infos, ids) && GoodAmong(infos, ids, a, now)
    ensures GoodOne(infos, a, now)
  {
    var n :| n in ids && infos[n].addr == a && !infos[n].IsTerrible(now);
    assert n in infos;
  }

  lemma RandomDistinct(infos: Infos, random: seq<int>, n: nat)
    requires RandomOk(infos, random) && n <= |random|
    ensures forall i, j :: 0 <= i < j < n ==> random[..n][i] != random[..n][j]
  {}

  lemma RandomKnown(infos: Infos, random: seq<int>)
    requires RandomOk(infos, random)
    ensures AllKnown(infos, random)
  {}

  lemma RandomHas(infos: Infos, random: seq<int>, m: int)
    requires RandomOk(infos, random) && m in infos
    ensures m in random
  {}

  lemma SameButNone(a: Infos)
    ensures SameBut(a, a, {})
  {}

  lemma SameButBack(a: Infos, b: Infos, ids: seq<int>, n: nat)
    requires SameBut(a, b, {}) && AllKnown(b, ids) && n < |ids|
    ensures AllKnown(a, ids) && b[ids[n]].addr == a[ids[n]].addr
    ensures forall now :: b[ids[n]].IsTerrible(now) == a[ids[n]].IsTerrible(now)
  {
    forall i | 0 <= i < |ids| ensures ids[i] in a {
      var m := ids[i];
      assert m in b;
    }
    var m := ids[n];
    assert m in b && m !in {} && a[m] == b[m].(randomPos := a[m].randomPos);
  }

  lemma SurvivesNone(a: Infos, b: Infos, bound: int)
    requires SameBut(a, b, {})
    ensures Survives(a, b, bound, -1)
  {}

  /** A tried entry that connected less than REPLACEMENT_HOURS ago. */
  predicate Recent(infos: Infos, n: int, now: int) {
    n in infos && infos[n].inTried && now - infos[n].lastSuccess < REPLACEMENT_HOURS * (60 * 60)
  }

  ghost predicate RecentKept(a: Infos, b: Infos, now: int, but: int) {
    forall n :: Recent(a, n, now) && n != but ==> Recent(b, n, now)
  }

  lemma RecentMakeTried(a: Infos, id: int, b: Infos, evicted: int, lost: int, now: int)
    requires SameBut(a, b, {id, evicted, lost}) && id in a && !a[id].inTried
    requires lost in a ==> !a[lost].inTried
    ensures RecentKept(a, b, now, evicted)
  {
    forall n | Recent(a, n, now) && n != evicted ensures Recent(b, n, now) {
      assert n !in {id, evicted, lost};
    }
  }

  lemma RecentTouch(a: Infos, id: int, i: AddrInfo, c: Infos, now: int, but: int)
    requires id in a && i.inTried == a[id].inTried && i.lastSuccess == now
    requires RecentKept(a[id := i], c, now, but)
    ensures RecentKept(a, c, now, but)
  {
    forall n | Recent(a, n, now) && n != but ensures Recent(c, n, now) {
      assert Recent(a[id := i], n, now);
    }
  }

  lemma EmptyOrNot(s: set<int>)
    ensures s == {} || exists x :: x in s
  {
    if forall x :: x !in s {
      assert s == {};
    }
  }

  lemma NothingKnown(l: Layout, news: Table, tried: Table)
    requires Sized(news, l.newBuckets, l.bucketSize) && Sized(tried, l.triedBuckets, l.bucketSize)
    requires AllFree(news) && AllFree(tried)
    ensures NewOk(l, map[], news, {}) && TriedOk(l, map[], tried)
    ensures RandomOk(map[], []) && AddrOk(map[], map[]) && LimboOk(map[], {}) && StatsOk(map[]) && IdsOk(map[], 0)
    ensures TriedIds(map[]) == {} && NewIds(map[], {}) == {}
  {}

  lemma CollisionsCleared(l: Layout, tried: Table, collisions: set<int>)
    requires Sized(tried, l.triedBuckets, l.bucketSize)
    ensures CollisionsOk(l, map[], tried, collisions, 0) <==> collisions == {}
  {
    EmptyOrNot(collisions);
  }

  lemma OccupiedChain(t: Table, t': Table, t'': Table)
    requires OccupiedKept(t, t') && OccupiedKept(t', t'')
    ensures OccupiedKept(t, t'')
  {}

  lemma CollisionsFewer(l: Layout, infos: Infos, tried: Table, collisions: set<int>, id: int, bound: int)
    requires CollisionsOk(l, infos, tried, collisions, bound)
    ensures CollisionsOk(l, infos, tried, collisions - {id}, bound)
  {}

  lemma CollisionOccupied(l: Layout, infos: Infos, tried: Table, collisions: set<int>, id: int, bound: int)
    requires CollisionsOk(l, infos, tried, collisions, bound) && id in collisions && id in infos
    ensures Occupant(l, tried, infos[id].service) != -1
  {}

  lemma IndexKnown(infos: Infos, byAddr: map<NetAddr, int>, id: int)
    requires AddrOk(infos, byAddr) && id in infos
    ensures KnownId(infos, byAddr, infos[id].service) == id
  {}

  const DEFAULT_INFO := AddrInfo(Address(Service(0, 0), 0, 0), 0, 0, 0, 0, 0, 0, false, -1)

  /** How a collision is decided, from the ages of the two entries. */
  datatype Verdict = Keep | Erase | Replace

  function Judge(incumbent: AddrInfo, challenger: AddrInfo, now: int): Verdict {
    if now - incumbent.lastSuccess < REPLACEMENT_HOURS * (60 * 60) then Erase
    else if now - incumbent.lastTry < REPLACEMENT_HOURS * (60 * 60) then
      if now - incumbent.lastTry > 60 then Replace else Keep
    else if now - challenger.lastSuccess > TEST_WINDOW then Replace
    else Keep
  }

  /** What happens to a collision: an unknown or invalid id is dropped, and a free slot is taken. */
  function VerdictOn(l: Layout, infos: Infos, tried: Table, id: int, now: int): Verdict {
    if id !in infos || !l.valid(infos[id].service.ip) then Erase
    else
      var o := Occupant(l, tried, infos[id].service);
      if o !in infos then Replace else Judge(infos[o], infos[id], now)
  }

  /** No id appears, and none changes its service. */
  ghost predicate ServicesKept(a: Infos, b: Infos) {
    forall n :: n in b ==> n in a && b[n].service == a[n].service
  }

  lemma KeptChain(a: Infos, b: Infos, c: Infos, now: int)
    requires RecentKept(a, b, now, -1) && RecentKept(b, c, now, -1) && ServicesKept(a, b) && ServicesKept(b, c)
    ensures RecentKept(a, c, now, -1) && ServicesKept(a, c)
  {}

  lemma KeptSame(a: Infos, now: int)
    ensures RecentKept(a, a, now, -1) && ServicesKept(a, a)
  {}

  /** The entry of a collision whose tried incumbent connected recently. */
  ghost predicate AgainstRecent(l: Layout, infos: Infos, tried: Table, id: int, now: int) {
    id in infos && Recent(infos, Occupant(l, tried, infos[id].service), now)
  }

  /** A recent incumbent is still in place later, so the collision against it is dropped. */
  lemma RecentStays(l: Layout, a: Infos, t: Table, b: Infos, t': Table, id: int, now: int)
    requires TriedOk(l, a, t) && TriedOk(l, b, t') && ServicesKept(a, b) && RecentKept(a, b, now, -1) && -1 !in a
    requires AgainstRecent(l, a, t, id, now)
    ensures VerdictOn(l, b, t', id, now) == Erase
  {
    if id in b {
      var s := a[id].service;
      var n := Occupant(l, t, s);
      SlotIsTried(l, a, t, l.TriedBucket(s), l.TriedPosition(s));
      assert Recent(b, n, now);
      assert Occupant(l, t', s) == n;
    }
  }

  /** The books of a manager at one time. */
  datatype Snap = Snap(infos: Infos, byAddr: map<NetAddr, int>, news: Table, tried: Table, collisions: set<int>,
                       ids: int, lastGood: int)

  /** CAddrMan. */
  class Manager {
    var layout: Layout
    var nIdCount: int
    var mapInfo: Infos
    var mapAddr: map<NetAddr, int>
    var vRandom: seq<int>
    var nTried: int
    var vvTried: Table
    var nNew: int
    var vvNew: Table
    var nLastGood: int
    var triedCollisions: set<int>

    /**
     The invariant of Check_, for a state in the middle of an operation: the ids in `limbo` are
     between two tables, and `slack` is how far nNew is ahead of the ids it should count.
     */
    ghost predicate Inv(limbo: set<int>, slack: int)
      reads this
    {
      && RandomOk(mapInfo, vRandom)
      && AddrOk(mapInfo, mapAddr)
      && NewOk(layout, mapInfo, vvNew, limbo)
      && TriedOk(layout, mapInfo, vvTried)
      && LimboOk(mapInfo, limbo)
      && StatsOk(mapInfo)
      && IdsOk(mapInfo, nIdCount)
      && nTried == |TriedIds(mapInfo)|
      && nNew == |NewIds(mapInfo, limbo)| + slack
    }

    ghost predicate Valid()
      reads this
    {
      Inv({}, 0)
    }

    method SwapRandom(pos1: nat, pos2: nat, ghost limbo: set<int>, ghost slack: int)
      requires Inv(limbo, slack)
      requires pos1 < |vRandom| && pos2 < |vRandom|
      modifies `mapInfo, `vRandom
      ensures Inv(limbo, slack) && SameBut(old(mapInfo), mapInfo, {})
      ensures vRandom == old(vRandom)[pos1 := old(vRandom)[pos2]][pos2 := old(vRandom)[pos1]]
      ensures old(vRandom)[pos1] in mapInfo && mapInfo[old(vRandom)[pos1]].randomPos == pos2
    {
      hide NewOk, TriedOk, AddrOk, StatsOk, LimboOk, IdsOk, SamePlacement, TriedIds, NewIds;
      if pos1 == pos2 {
        return;
      }
      ghost var infos0 := mapInfo;
      RandomSwap(mapInfo, vRandom, pos1, pos2);
      var id1, id2 := vRandom[pos1], vRandom[pos2];
      mapInfo := mapInfo[id1 := mapInfo[id1].(randomPos := pos2)];
      mapInfo := mapInfo[id2 := mapInfo[id2].(randomPos := pos1)];
      vRandom := vRandom[pos1 := id2];
      vRandom := vRandom[pos2 := id1];
      SameStats(infos0, mapInfo, nIdCount);
      PlacementKept(layout, infos0, mapInfo, mapAddr, vvNew, vvTried, limbo);
    }

    method Delete(id: int, ghost limbo: set<int>, ghost slack: int)
      requires Inv(limbo, slack) && id in limbo
      modifies `mapInfo, `vRandom, `mapAddr, `nNew
      ensures Inv(limbo - {id}, slack - 1)
      ensures id !in mapInfo && SameBut(old(mapInfo), mapInfo, {id})
      ensures mapAddr == old(mapAddr) - {old(mapInfo)[id].service.ip}
    {
      hide NewOk, TriedOk, AddrOk, StatsOk;
      SwapRandom(mapInfo[id].randomPos, |vRandom| - 1, limbo, slack);
      RandomDrop(mapInfo, vRandom, id);
      IndexDrop(mapInfo, mapAddr, nIdCount, id);
      DropKeeps(layout, mapInfo, vvNew, vvTried, limbo, id);
      SameButDrop(old(mapInfo), mapInfo, id);
      vRandom := vRandom[..|vRandom| - 1];
      mapAddr := mapAddr - {mapInfo[id].service.ip};
      mapInfo := mapInfo - {id};
      nNew := nNew - 1;
    }

    /** The first half of ClearNew: the slot is freed and its id loses a reference. */
    method Unref(b: int, p: int, ghost limbo: set<int>, ghost slack: int) returns (id: int)
      requires Inv(limbo, slack) && InTable(vvNew, b, p) && vvNew[b][p] != -1
      modifies `mapInfo, `vvNew
      ensures id == old(vvNew)[b][p] && vvNew == Put(old(vvNew), b, p, -1)
      ensures id in old(mapInfo) && id !in limbo && old(mapInfo)[id].refCount >= 1
      ensures mapInfo == old(mapInfo)[id := old(mapInfo)[id].(refCount := old(mapInfo)[id].refCount - 1)]
      ensures if mapInfo[id].refCount == 0 then Inv(limbo + {id}, slack + 1) else Inv(limbo, slack)
    {
      hide NewOk, TriedOk, AddrOk, RandomOk, IdsOk, TriedIds, NewIds;
      id := vvNew[b][p];
      UnrefKeeps(layout, mapInfo, vvNew, limbo, b, p, id);
      UpdateFree(mapInfo, id, mapInfo[id].(refCount := mapInfo[id].refCount - 1), mapAddr, vRandom, nIdCount);
      mapInfo := mapInfo[id := mapInfo[id].(refCount := mapInfo[id].refCount - 1)];
      TriedFrame(layout, old(mapInfo), mapInfo, vvTried);
      vvNew := Put(vvNew, b, p, -1);
    }

    method ClearNew(b: int, p: int, ghost limbo: set<int>, ghost slack: int)
      requires Inv(limbo, slack) && InTable(vvNew, b, p)
      modifies `mapInfo, `vRandom, `mapAddr, `nNew, `vvNew
      ensures Inv(limbo, slack)
      ensures vvNew == Put(old(vvNew), b, p, -1)
      ensures old(vvNew)[b][p] !in limbo && SameBut(old(mapInfo), mapInfo, {old(vvNew)[b][p]})
      ensures var id := old(vvNew)[b][p];
              if id == -1 then mapInfo == old(mapInfo) && mapAddr == old(mapAddr)
              else
                && id in old(mapInfo)
                && (if old(mapInfo)[id].refCount == 1
                    then id !in mapInfo && mapAddr == old(mapAddr) - {old(mapInfo)[id].service.ip}
                    else id in mapInfo && mapAddr == old(mapAddr)
                         && mapInfo[id] == old(mapInfo)[id].(refCount := old(mapInfo)[id].refCount - 1))
    {
      hide NewOk, TriedOk, AddrOk, StatsOk, RandomOk, IdsOk, TriedIds, NewIds;
      NewSized(layout, mapInfo, vvNew, limbo);
      if vvNew[b][p] != -1 {
        var id := Unref(b, p, limbo, slack);
        if mapInfo[id].refCount == 0 {
          Delete(id, limbo + {id}, slack + 1);
          assert limbo + {id} - {id} == limbo;
        }
      } else {
        PutSame(vvNew, b, p);
      }
    }

    /** Gives a free "new" slot to an id. */
    method Ref(id: int, b: int, p: int, ghost limbo: set<int>, ghost slack: int)
      requires Inv(limbo, slack) && InTable(vvNew, b, p) && vvNew[b][p] == -1
      requires id in mapInfo && !mapInfo[id].inTried && mapInfo[id].refCount < NEW_BUCKETS_PER_ADDRESS
      requires p == layout.Position(true, b, mapInfo[id].service)
      modifies `mapInfo, `vvNew
      ensures Inv(limbo - {id}, slack - (if id in limbo then 1 else 0))
      ensures vvNew == Put(old(vvNew), b, p, id)
      ensures mapInfo == old(mapInfo)[id := old(mapInfo)[id].(refCount := old(mapInfo)[id].refCount + 1)]
    {
      hide NewOk, TriedOk, AddrOk, RandomOk, IdsOk, TriedIds, NewIds;
      RefKeeps(layout, mapInfo, vvNew, limbo, b, p, id);
      UpdateFree(mapInfo, id, mapInfo[id].(refCount := mapInfo[id].refCount + 1), mapAddr, vRandom, nIdCount);
      mapInfo := mapInfo[id := mapInfo[id].(refCount := mapInfo[id].refCount + 1)];
      TriedFrame(layout, old(mapInfo), mapInfo, vvTried);
      vvNew := Put(vvNew, b, p, id);
    }

    /** Takes an id out of its "tried" slot. */
    method LeaveTried(id: int, ghost limbo: set<int>, ghost slack: int)
      requires Inv(limbo, slack) && id in mapInfo && mapInfo[id].inTried
      modifies `mapInfo, `vvTried, `nTried
      ensures Inv(limbo + {id}, slack) && id !in limbo
      ensures vvTried == Put(old(vvTried), layout.TriedBucket(mapInfo[id].service), layout.TriedPosition(mapInfo[id].service), -1)
      ensures mapInfo == old(mapInfo)[id := old(mapInfo)[id].(inTried := false)]
    {
      hide NewOk, AddrOk, RandomOk, IdsOk, TriedIds, NewIds;
      UntryKeeps(layout, mapInfo, vvTried, id);
      UpdateFree(mapInfo, id, mapInfo[id].(inTried := false), mapAddr, vRandom, nIdCount);
      mapInfo := mapInfo[id := mapInfo[id].(inTried := false)];
      NewFrame(layout, old(mapInfo), mapInfo, vvNew, limbo, limbo + {id});
      vvTried := Put(vvTried, layout.TriedBucket(mapInfo[id].service), layout.TriedPosition(mapInfo[id].service), -1);
      nTried := nTried - 1;
    }

    /** Puts an id from limbo into its free "tried" slot. */
    method EnterTried(id: int, ghost limbo: set<int>, ghost slack: int)
      requires Inv(limbo, slack) && id in limbo && mapInfo[id].lastSuccess > 0
      requires vvTried[layout.TriedBucket(mapInfo[id].service)][layout.TriedPosition(mapInfo[id].service)] == -1
      modifies `mapInfo, `vvTried, `nTried
      ensures Inv(limbo - {id}, slack)
      ensures vvTried == Put(old(vvTried), layout.TriedBucket(mapInfo[id].service), layout.TriedPosition(mapInfo[id].service), id)
      ensures mapInfo == old(mapInfo)[id := old(mapInfo)[id].(inTried := true)]
    {
      hide AddrOk, RandomOk, IdsOk, TriedIds, NewIds;
      TryKeeps(layout, mapInfo, vvTried, id);
      UpdateFree(mapInfo, id, mapInfo[id].(inTried := true), mapAddr, vRandom, nIdCount);
      mapInfo := mapInfo[id := mapInfo[id].(inTried := true)];
      NewFrame(layout, old(mapInfo), mapInfo, vvNew, limbo, limbo - {id});
      vvTried := Put(vvTried, layout.TriedBucket(mapInfo[id].service), layout.TriedPosition(mapInfo[id].service), id);
      nTried := nTried + 1;
    }

    /** The loop of MakeTried that frees every "new" slot of an id. */
    method LeaveNew(id: int)
      requires Valid() && id in mapInfo && !mapInfo[id].inTried
      modifies `mapInfo, `vvNew, `nNew
      ensures Inv({id}, 0)
      ensures mapInfo == old(mapInfo)[id := old(mapInfo)[id].(refCount := 0)]
    {
      hide NewOk, TriedOk, AddrOk, RandomOk, IdsOk, StatsOk, TriedIds, NewIds, LimboOk;
      NewSized(layout, mapInfo, vvNew, {});
      NewCounted(layout, mapInfo, vvNew, {}, id);
      var s := mapInfo[id].service;
      var bucket := 0;
      while bucket < layout.newBuckets
        invariant 0 <= bucket <= layout.newBuckets && Sized(vvNew, layout.newBuckets, layout.bucketSize)
        invariant id in mapInfo && mapInfo[id].refCount >= 0
        invariant mapInfo == old(mapInfo)[id := old(mapInfo)[id].(refCount := mapInfo[id].refCount)]
        invariant if mapInfo[id].refCount == 0 then Inv({id}, 1) else Inv({}, 0)
        invariant forall c :: 0 <= c < bucket ==> vvNew[c][layout.Position(true, c, s)] != id
      {
        var pos := layout.Position(true, bucket, s);
        if vvNew[bucket][pos] == id {
          if mapInfo[id].refCount == 0 {
            SlotIsNew(layout, mapInfo, vvNew, {id}, bucket, pos);
            assert false;
          }
          var cleared := Unref(bucket, pos, {}, 0);
          assert {} + {id} == {id};
        }
        bucket := bucket + 1;
      }
      if mapInfo[id].refCount != 0 {
        var b := SomeSlot(layout, mapInfo, vvNew, {}, id);
        assert false;
      }
      nNew := nNew - 1;
    }

    /** Moves the tried entry `id` back to the "new" table, deleting whatever is in its slot there. */
    method Evict(id: int, ghost limbo: set<int>) returns (ghost lost: int)
      requires Inv(limbo, 0) && id in mapInfo && mapInfo[id].inTried
      modifies `mapInfo, `vvTried, `nTried, `vRandom, `mapAddr, `nNew, `vvNew
      ensures Inv(limbo, 0) && id in mapInfo
      ensures var s := old(mapInfo)[id].service;
              vvTried == Put(old(vvTried), layout.TriedBucket(s), layout.TriedPosition(s), -1)
      ensures mapInfo[id].(randomPos := 0) == old(mapInfo)[id].(randomPos := 0, inTried := false, refCount := 1)
      ensures lost !in limbo && lost != id && SameBut(old(mapInfo), mapInfo, {id, lost})
      ensures lost in old(mapInfo) ==> !old(mapInfo)[lost].inTried
      ensures AtHome(layout, vvNew, id, mapInfo[id])
    {
      hide NewOk, TriedOk, AddrOk, RandomOk, IdsOk, StatsOk, TriedIds, NewIds, LimboOk, SameBut;
      LeaveTried(id, limbo, 0);
      SameButUpdate(old(mapInfo), id, mapInfo[id]);
      var info := mapInfo[id];
      var bucket := layout.NewBucket(info.service.ip, info.source);
      var pos := layout.Position(true, bucket, info.service);
      NewSized(layout, mapInfo, vvNew, limbo + {id});
      lost := vvNew[bucket][pos];
      if lost != -1 {
        SlotIsNew(layout, mapInfo, vvNew, limbo + {id}, bucket, pos);
      }
      ghost var infos1 := mapInfo;
      ClearNew(bucket, pos, limbo + {id}, 0);
      SameButAt(infos1, mapInfo, {lost}, id);
      SameButChain(old(mapInfo), infos1, mapInfo, {id}, {lost});
      NotHeld(layout, mapInfo, vvNew, limbo + {id}, id);
      ghost var infos2 := mapInfo;
      Ref(id, bucket, pos, limbo + {id}, 0);
      SameButUpdate(infos2, id, mapInfo[id]);
      SameButChain(old(mapInfo), infos2, mapInfo, {id} + {lost}, {id});
      assert limbo + {id} - {id} == limbo && {id} + {lost} + {id} == {id, lost};
      nNew := nNew + 1;
    }

    /** Moves an entry from the "new" to the "tried" table; a tried entry in its way goes back to "new". */
    method MakeTried(id: int) returns (ghost lost: int)
      requires Valid() && id in mapInfo && !mapInfo[id].inTried && mapInfo[id].lastSuccess > 0
      modifies `mapInfo, `vvTried, `nTried, `vRandom, `mapAddr, `nNew, `vvNew
      ensures Valid() && id in mapInfo
      ensures mapInfo[id].(randomPos := 0) == old(mapInfo)[id].(randomPos := 0, inTried := true, refCount := 0)
      ensures var b, p := layout.TriedBucket(old(mapInfo)[id].service), layout.TriedPosition(old(mapInfo)[id].service);
              && InTable(old(vvTried), b, p) && vvTried == Put(old(vvTried), b, p, id)
              && SameBut(old(mapInfo), mapInfo, {id, old(vvTried)[b][p], lost})
              && (old(vvTried)[b][p] != -1 ==>
                    && old(vvTried)[b][p] in mapInfo
                    && !mapInfo[old(vvTried)[b][p]].inTried && mapInfo[old(vvTried)[b][p]].refCount == 1
                    && AtHome(layout, vvNew, old(vvTried)[b][p], mapInfo[old(vvTried)[b][p]]))
              && (old(vvTried)[b][p] == -1 ==> lost == -1)
      ensures lost in old(mapInfo) ==> !old(mapInfo)[lost].inTried
    {
      hide NewOk, TriedOk, AddrOk, RandomOk, IdsOk, StatsOk, TriedIds, NewIds, LimboOk, SameBut;
      var s := mapInfo[id].service;
      var b, p := layout.TriedBucket(s), layout.TriedPosition(s);
      TriedSized(layout, mapInfo, vvTried);
      NewSized(layout, mapInfo, vvNew, {});
      LeaveNew(id);
      SameButUpdate(old(mapInfo), id, mapInfo[id]);
      lost := -1;
      var idEvict := vvTried[b][p];
      ghost var infos1 := mapInfo;
      if idEvict != -1 {
        SlotIsTried(layout, mapInfo, vvTried, b, p);
        lost := Evict(idEvict, {id});
        SameButAt(infos1, mapInfo, {idEvict, lost}, id);
        SameButChain(old(mapInfo), infos1, mapInfo, {id}, {idEvict, lost});
      }
      ghost var infos2 := mapInfo;
      PutTwice(old(vvTried), b, p, -1, id);
      EnterTried(id, {id}, 0);
      assert {id} - {id} == {};
      SameButUpdate(infos2, id, mapInfo[id]);
      SameButMore(old(mapInfo), infos2, mapInfo, id, idEvict, lost);
    }

    /** Replaces the statistics of one entry. */
    method Retime(id: int, info: AddrInfo, ghost limbo: set<int>, ghost slack: int)
      requires Inv(limbo, slack) && id in mapInfo && StatsFine(info)
      requires info.service == mapInfo[id].service && info.randomPos == mapInfo[id].randomPos
      requires info.refCount == mapInfo[id].refCount && info.inTried == mapInfo[id].inTried
      modifies `mapInfo
      ensures Inv(limbo, slack) && mapInfo == old(mapInfo)[id := info]
    {
      hide NewOk, TriedOk, AddrOk, RandomOk, IdsOk, TriedIds, NewIds, LimboOk;
      UpdateFree(mapInfo, id, info, mapAddr, vRandom, nIdCount);
      mapInfo := mapInfo[id := info];
      PlacementKept(layout, old(mapInfo), mapInfo, mapAddr, vvNew, vvTried, limbo);
    }

    method Touch(id: int, info: AddrInfo)
      requires Valid() && id in mapInfo && StatsFine(info)
      requires info.service == mapInfo[id].service && info.randomPos == mapInfo[id].randomPos
      requires info.refCount == mapInfo[id].refCount && info.inTried == mapInfo[id].inTried
      modifies `mapInfo
      ensures Valid() && mapInfo == old(mapInfo)[id := info]
    {
      Retime(id, info, {}, 0);
    }

    /** The search of Good_ for a bucket that holds the id, starting anywhere; -1 if there is none. */
    method FindNewBucket(id: int, rnd: nat) returns (bucket: int)
      requires Valid() && id in mapInfo && !mapInfo[id].inTried
      ensures 0 <= bucket < layout.newBuckets
      ensures |vvNew| == layout.newBuckets && |vvNew[bucket]| == layout.bucketSize
      ensures vvNew[bucket][layout.Position(true, bucket, mapInfo[id].service)] == id
    {
      hide NewOk, TriedOk, AddrOk, RandomOk, IdsOk, StatsOk, TriedIds, NewIds, LimboOk;
      NewSized(layout, mapInfo, vvNew, {});
      NewCounted(layout, mapInfo, vvNew, {}, id);
      ghost var b := SomeSlot(layout, mapInfo, vvNew, {}, id);
      bucket := -1;
      var n := 0;
      while n < layout.newBuckets
        invariant 0 <= n <= layout.newBuckets
        invariant forall m :: 0 <= m < n ==> Wrap(m, rnd, layout.newBuckets) != b
      {
        var candidate := Wrap(n, rnd, layout.newBuckets);
        if vvNew[candidate][layout.Position(true, candidate, mapInfo[id].service)] == id {
          return candidate;
        }
        n := n + 1;
      }
      WrapCovers(b, rnd, layout.newBuckets);
    }

    /** The fields that calls from outside are about. */
    ghost function Books(): Snap
      reads this
    {
      Snap(mapInfo, mapAddr, vvNew, vvTried, triedCollisions, nIdCount, nLastGood)
    }

    ghost predicate CollOk()
      reads this
    {
      CollisionsOk(layout, mapInfo, vvTried, triedCollisions, nIdCount)
    }

    /**
     What no operation but Clear undoes: ids are never reused, keep their service, and "tried"
     slots stay occupied.  A single operation forgets at most the untried id `lost`.
     */
    twostate predicate Onward(lost: int)
      reads this
    {
      && layout == old(layout)
      && old(nIdCount) <= nIdCount
      && OccupiedKept(old(vvTried), vvTried)
      && Survives(old(mapInfo), mapInfo, old(nIdCount), lost)
    }

    /** The end of Good_: move the entry to "tried", or note the collision. */
    method Promote(id: int, testBeforeEvict: bool, rnd: nat) returns (gaveUp: bool, ghost lost: int)
      requires Valid() && id in mapInfo && !mapInfo[id].inTried && mapInfo[id].lastSuccess > 0
      modifies `mapInfo, `vvTried, `nTried, `vRandom, `mapAddr, `nNew, `vvNew, `triedCollisions
      ensures Valid() && !gaveUp && Onward(lost)
      ensures old(CollOk()) ==> CollOk()
      ensures id in mapInfo && mapInfo[id].lastSuccess == old(mapInfo)[id].lastSuccess
      ensures mapInfo[id].lastTry == old(mapInfo)[id].lastTry && mapInfo[id].attempts == old(mapInfo)[id].attempts
      ensures Promoted(layout, id, old(mapInfo)[id].service, testBeforeEvict, old(vvTried), vvTried,
                       old(triedCollisions), triedCollisions, mapInfo[id].inTried)
      ensures forall now :: RecentKept(old(mapInfo), mapInfo, now, Occupant(layout, old(vvTried), old(mapInfo)[id].service))
      ensures var o := Occupant(layout, old(vvTried), old(mapInfo)[id].service);
              SameBut(old(mapInfo), mapInfo, {id, o, lost}) && (o == -1 ==> lost == -1)
    {
      hide NewOk, TriedOk, AddrOk, RandomOk, IdsOk, StatsOk, TriedIds, NewIds, LimboOk, SameBut, OccupiedKept, Survives;
      gaveUp, lost := false, -1;
      TriedSized(layout, mapInfo, vvTried);
      NewSized(layout, mapInfo, vvNew, {});
      SurvivesSame(mapInfo, nIdCount, vvTried);
      var bucket := FindNewBucket(id, rnd);
      if bucket == -1 {
        return true, -1;
      }
      var s := mapInfo[id].service;
      var b, p := layout.TriedBucket(s), layout.TriedPosition(s);
      if testBeforeEvict && vvTried[b][p] != -1 {
        SameButAny(mapInfo, {id, vvTried[b][p], -1});
        if |triedCollisions| < TRIED_COLLISION_SIZE {
          IdBounded(mapInfo, nIdCount, id);
          triedCollisions := triedCollisions + {id};
        }
      } else {
        lost := MakeTried(id);
        OccupiedPut(old(vvTried), b, p, id);
        SurvivesMakeTried(old(mapInfo), id, mapInfo, old(vvTried)[b][p], lost, nIdCount);
        forall now ensures RecentKept(old(mapInfo), mapInfo, now, old(vvTried)[b][p]) {
          RecentMakeTried(old(mapInfo), id, mapInfo, old(vvTried)[b][p], lost, now);
        }
        if old(CollOk()) {
          SurvivesServices(old(mapInfo), mapInfo, nIdCount, lost);
          CollisionsKept(layout, old(mapInfo), mapInfo, old(vvTried), vvTried, triedCollisions, nIdCount, nIdCount);
        }
      }
    }

    /** Marks an entry good.  `gaveUp` is the exit for an entry that no bucket holds. */
    method Good_(addr: Service, testBeforeEvict: bool, time: int, rnd: nat) returns (gaveUp: bool, ghost lost: int)
      requires Valid() && time > 0
      modifies `mapInfo, `vvTried, `nTried, `vRandom, `mapAddr, `nNew, `vvNew, `nLastGood, `triedCollisions
      ensures Valid() && !gaveUp && nLastGood == time && Onward(lost)
      ensures old(CollOk()) ==> CollOk()
      ensures RecentKept(old(mapInfo), mapInfo, time, Occupant(layout, old(vvTried), addr))
      ensures var o := Occupant(layout, old(vvTried), addr);
              && SameBut(old(mapInfo), mapInfo, {KnownId(old(mapInfo), old(mapAddr), addr), o, lost})
              && (o == -1 ==> lost == -1)
      ensures var id := KnownId(old(mapInfo), old(mapAddr), addr);
              if id == -1 then mapInfo == old(mapInfo) && mapAddr == old(mapAddr) && triedCollisions == old(triedCollisions)
                               && vvTried == old(vvTried) && vvNew == old(vvNew)
              else
                && id in old(mapInfo) && id in mapInfo
                && mapInfo[id].lastSuccess == time && mapInfo[id].lastTry == time && mapInfo[id].attempts == 0
                && (if old(mapInfo)[id].inTried
                    then mapInfo[id].inTried && triedCollisions == old(triedCollisions) && vvTried == old(vvTried)
                    else Promoted(layout, id, addr, testBeforeEvict, old(vvTried), vvTried,
                                  old(triedCollisions), triedCollisions, mapInfo[id].inTried))
    {
      hide NewOk, TriedOk, AddrOk, RandomOk, IdsOk, StatsOk, TriedIds, NewIds, LimboOk, SameBut, OccupiedKept, Survives;
      gaveUp, lost := false, -1;
      nLastGood := time;
      SurvivesSame(mapInfo, nIdCount, vvTried);
      NewSized(layout, mapInfo, vvNew, {});
      ghost var known, o := KnownId(mapInfo, mapAddr, addr), Occupant(layout, vvTried, addr);
      SameButAny(mapInfo, {known, o, -1});
      if addr.ip in mapAddr {
        IndexFound(mapInfo, mapAddr, addr.ip);
        var id := mapAddr[addr.ip];
        var info := mapInfo[id];
        if info.service == addr {
          var touched := info.(lastSuccess := time, lastTry := time, attempts := 0);
          Touch(id, touched);
          SameButAny(mapInfo, {known, o, -1});
          SurvivesSame(mapInfo, nIdCount, vvTried);
          SurvivesTouch(old(mapInfo), id, touched, mapInfo, nIdCount, -1);
          if old(CollOk()) {
            SurvivesServices(old(mapInfo), mapInfo, nIdCount, -1);
            CollisionsKept(layout, old(mapInfo), mapInfo, vvTried, vvTried, triedCollisions, nIdCount, nIdCount);
          }
          if !info.inTried {
            gaveUp, lost := Promote(id, testBeforeEvict, rnd);
            SurvivesTouch(old(mapInfo), id, touched, mapInfo, nIdCount, lost);
          }
          SameButAfter(old(mapInfo), id, touched, mapInfo, {known, o, lost});
          RecentTouch(old(mapInfo), id, touched, mapInfo, time, Occupant(layout, old(vvTried), addr));
        }
      }
    }

    method Create(addr: Address, source: NetAddr) returns (id: int)
      requires Valid() && addr.service.ip !in mapAddr
      modifies `nIdCount, `mapInfo, `mapAddr, `vRandom
      ensures id == old(nIdCount) && nIdCount == id + 1 && id !in old(mapInfo)
      ensures Inv({id}, 0)
      ensures mapInfo == old(mapInfo)[id := AddrInfo(addr, source, 0, 0, 0, 0, 0, false, |old(vRandom)|)]
      ensures mapAddr == old(mapAddr)[addr.service.ip := id]
    {
      hide NewOk, TriedOk, AddrOk, RandomOk, IdsOk, StatsOk, TriedIds, NewIds, LimboOk;
      var info := AddrInfo(addr, source, 0, 0, 0, 0, 0, false, |vRandom|);
      id := nIdCount;
      IndexCreate(mapInfo, mapAddr, id, info);
      RandomCreate(mapInfo, vRandom, id, info);
      CreateKeeps(layout, mapInfo, vvNew, vvTried, {}, id, info);
      assert {} + {id} == {id};
      nIdCount := nIdCount + 1;
      mapInfo := mapInfo[id := info];
      mapAddr := mapAddr[addr.service.ip := id];
      vRandom := vRandom + [id];
    }

    /** The end of Add_: try to take the "new" slot that `source` selects. */
    method Place(id: int, source: NetAddr, now: int) returns (ghost lost: int)
      requires id in mapInfo && !mapInfo[id].inTried && mapInfo[id].refCount < NEW_BUCKETS_PER_ADDRESS
      requires if mapInfo[id].refCount == 0 then Inv({id}, 1) else Valid()
      modifies `mapInfo, `vRandom, `mapAddr, `nNew, `vvNew
      ensures Valid()
      ensures SameBut(old(mapInfo), mapInfo, {id, lost}) && id != lost
      ensures old(mapInfo)[id].refCount > 0 ==> id in mapInfo
      ensures FreeFor(layout, old(vvNew), old(mapInfo)[id].service, source) ==> id in mapInfo && lost == -1
      ensures lost in old(mapInfo) && lost !in mapInfo ==>
                old(mapInfo)[lost].IsTerrible(now) && !old(mapInfo)[lost].inTried
      ensures var i := old(mapInfo)[id];
              vvNew == NewAfter(layout, old(mapInfo), old(vvNew), id, i.service, i.refCount, source, now)
      ensures var i := old(mapInfo)[id];
              id in mapInfo <==> i.refCount > 0 || TakesSlot(layout, old(mapInfo), old(vvNew), id, i.service, i.refCount, source, now)
      ensures var i := old(mapInfo)[id];
              var takes := TakesSlot(layout, old(mapInfo), old(vvNew), id, i.service, i.refCount, source, now);
              id in mapInfo ==>
                mapInfo[id].(randomPos := 0) == i.(randomPos := 0, refCount := i.refCount + if takes then 1 else 0)
    {
      hide NewOk, TriedOk, AddrOk, RandomOk, IdsOk, StatsOk, TriedIds, NewIds, LimboOk, SameBut;
      var info := mapInfo[id];
      ghost var limbo, slack := if info.refCount == 0 then {id} else {}, if info.refCount == 0 then 1 else 0;
      var b := layout.NewBucket(info.service.ip, source);
      var p := layout.Position(true, b, info.service);
      NewSized(layout, mapInfo, vvNew, limbo);
      SameButSame(mapInfo, id);
      IdBounded(mapInfo, nIdCount, id);
      if info.refCount != 0 { NewCounted(layout, mapInfo, vvNew, {}, id); }
      lost := -1;
      var occupant := vvNew[b][p];
      if occupant != -1 {
        SlotIsNew(layout, mapInfo, vvNew, limbo, b, p);
      }
      if occupant != id {
        var insert := occupant == -1;
        if !insert {
          var existing := mapInfo[occupant];
          insert := existing.IsTerrible(now) || (existing.refCount > 1 && info.refCount == 0);
        }
        if insert {
          lost := occupant;
          ClearNew(b, p, limbo, slack);
          SameButAt(old(mapInfo), mapInfo, {lost}, id);
          ghost var infos1 := mapInfo;
          Ref(id, b, p, limbo, slack);
          PutTwice(old(vvNew), b, p, -1, id);
          assert limbo - {id} == {};
          SameButUpdate(infos1, id, mapInfo[id]);
          SameButChain(old(mapInfo), infos1, mapInfo, {lost}, {id});
          assert {lost} + {id} == {id, lost};
        } else if info.refCount == 0 {
          Delete(id, {id}, 1);
          assert {id} - {id} == {};
          SameButWiden(old(mapInfo), mapInfo, id, -1);
        }
      }
    }

    /** The part of Add_ for a known address; false when Add_ stops there. */
    method Refresh(id: int, addr: Address, penalty: int, now: int, draw: nat) returns (more: bool)
      requires Valid() && id in mapInfo
      modifies `mapInfo
      ensures Valid()
      ensures mapInfo == old(mapInfo)[id := Heard(old(mapInfo)[id], addr, penalty, now)]
      ensures more <==> MayMultiply(mapInfo[id], addr, draw)
    {
      hide NewOk, TriedOk, AddrOk, RandomOk, IdsOk, TriedIds, NewIds, LimboOk, SameBut;
      Touch(id, Heard(mapInfo[id], addr, penalty, now));
      var info := mapInfo[id];
      if addr.time == 0 || (info.addr.time != 0 && addr.time <= info.addr.time) {
        return false;
      }
      if info.inTried {
        return false;
      }
      NewCounted(layout, mapInfo, vvNew, {}, id);
      if info.refCount == NEW_BUCKETS_PER_ADDRESS {
        return false;
      }
      var factor, n := 1, 0;
      while n < info.refCount
        invariant 0 <= n <= info.refCount && factor == Pow2(n)
      {
        factor := factor * 2;
        n := n + 1;
      }
      if factor > 1 && draw % factor != 0 {
        return false;
      }
      return true;
    }

    /** Adds an address heard from `source`.  Entries that are not terrible are never forgotten. */
    method Add_(addr: Address, source: NetAddr, timePenalty: int, now: int, draw: nat)
      returns (isNew: bool, ghost lost: int)
      requires Valid()
      modifies `nIdCount, `mapInfo, `mapAddr, `vRandom, `nNew, `vvNew
      ensures Valid() && Onward(lost)
      ensures old(CollOk()) ==> CollOk()
      ensures isNew <==> layout.routable(addr.service.ip) && addr.service.ip !in old(mapAddr)
      ensures !layout.routable(addr.service.ip) ==> mapInfo == old(mapInfo) && mapAddr == old(mapAddr) && vvNew == old(vvNew)
      ensures forall n :: n in old(mapInfo) && n !in mapInfo ==> old(mapInfo)[n].IsTerrible(now)
      ensures addr.service.ip in old(mapAddr) ==> old(mapAddr)[addr.service.ip] in mapInfo
      ensures nIdCount == old(nIdCount) + if isNew then 1 else 0
      ensures isNew && old(nIdCount) in mapInfo ==> mapInfo[old(nIdCount)].service == addr.service
      ensures isNew && FreeFor(layout, old(vvNew), addr.service, source) ==> old(nIdCount) in mapInfo && lost == -1
      ensures var penalty := if addr.service.ip == source then 0 else timePenalty;
              var id := old(nIdCount);
              isNew ==>
                && vvNew == NewAfter(layout, old(mapInfo), old(vvNew), id, addr.service, 0, source, now)
                && (id in mapInfo <==> TakesSlot(layout, old(mapInfo), old(vvNew), id, addr.service, 0, source, now))
                && (id in mapInfo ==> mapInfo[id].(randomPos := 0) == FirstHeard(addr, source, penalty))
      ensures var penalty := if addr.service.ip == source then 0 else timePenalty;
              layout.routable(addr.service.ip) && !isNew ==>
                var id := old(mapAddr)[addr.service.ip];
                HeardAgain(layout, old(mapInfo), old(vvNew), id, addr, source, penalty, now, draw, mapInfo[id], vvNew)
      ensures layout.routable(addr.service.ip) ==>
                OthersSame(old(mapInfo), mapInfo, if isNew then old(nIdCount) else old(mapAddr)[addr.service.ip], lost)
    {
      hide OthersSame;
      hide TakesSlot, NewAfter, FirstHeard, HeardAgain, FreeFor;
      hide NewOk, TriedOk, AddrOk, RandomOk, IdsOk, StatsOk, TriedIds, NewIds, LimboOk, SameBut, OccupiedKept, Survives;
      isNew, lost := false, -1;
      SurvivesSame(mapInfo, nIdCount, vvTried);
      NewSized(layout, mapInfo, vvNew, {});
      if addr.service.ip in mapAddr {
        IndexFound(mapInfo, mapAddr, addr.service.ip);
      }
      if !layout.routable(addr.service.ip) {
        return;
      }
      var penalty := if addr.service.ip == source then 0 else timePenalty;
      if addr.service.ip in mapAddr {
        var id := mapAddr[addr.service.ip];
        lost := AddKnown(id, addr, source, penalty, now, draw);
      } else {
        isNew := true;
        lost := AddUnknown(addr, source, penalty, now);
      }
    }

    method AddKnown(id: int, addr: Address, source: NetAddr, penalty: int, now: int, draw: nat) returns (ghost lost: int)
      requires Valid() && id in mapInfo
      modifies `mapInfo, `mapAddr, `vRandom, `nNew, `vvNew
      ensures Valid() && Onward(lost) && id in mapInfo
      ensures old(CollOk()) ==> CollOk()
      ensures forall n :: n in old(mapInfo) && n !in mapInfo ==> old(mapInfo)[n].IsTerrible(now)
      ensures HeardAgain(layout, old(mapInfo), old(vvNew), id, addr, source, penalty, now, draw, mapInfo[id], vvNew)
      ensures OthersSame(old(mapInfo), mapInfo, id, lost)
    {
      hide NewOk, TriedOk, AddrOk, RandomOk, IdsOk, StatsOk, TriedIds, NewIds, LimboOk, SameBut, OccupiedKept, Heard;
      lost := -1;
      SurvivesSame(mapInfo, nIdCount, vvTried);
      NewSized(layout, mapInfo, vvNew, {});
      ghost var heard := Heard(mapInfo[id], addr, penalty, now);
      HeardSame(mapInfo[id], addr, penalty, now);
      var more := Refresh(id, addr, penalty, now, draw);
      OthersTouched(old(mapInfo), id, heard);
      SurvivesSame(mapInfo, nIdCount, vvTried);
      SurvivesTouch(old(mapInfo), id, heard, mapInfo, nIdCount, -1);
      if more {
        NewCounted(layout, mapInfo, vvNew, {}, id);
        lost := Place(id, source, now);
        NewAfterTouch(layout, old(mapInfo), old(vvNew), id, heard, source, now);
        OthersSameFrom(old(mapInfo), mapInfo, id, heard, lost);
        SurvivesPlace(old(mapInfo), id, heard, mapInfo, lost, nIdCount);
      }
      if old(CollOk()) {
        CollisionsKept(layout, old(mapInfo), mapInfo, vvTried, vvTried, triedCollisions, nIdCount, nIdCount);
      }
    }

    method AddUnknown(addr: Address, source: NetAddr, penalty: int, now: int) returns (ghost lost: int)
      requires Valid() && addr.service.ip !in mapAddr
      modifies `nIdCount, `mapInfo, `mapAddr, `vRandom, `nNew, `vvNew
      ensures Valid() && Onward(lost) && nIdCount == old(nIdCount) + 1
      ensures old(CollOk()) ==> CollOk()
      ensures forall n :: n in old(mapInfo) && n !in mapInfo ==> old(mapInfo)[n].IsTerrible(now)
      ensures old(nIdCount) in mapInfo ==> mapInfo[old(nIdCount)].service == addr.service
      ensures FreeFor(layout, old(vvNew), addr.service, source) ==> old(nIdCount) in mapInfo && lost == -1
      ensures var id := old(nIdCount);
              && vvNew == NewAfter(layout, old(mapInfo), old(vvNew), id, addr.service, 0, source, now)
              && (id in mapInfo <==> TakesSlot(layout, old(mapInfo), old(vvNew), id, addr.service, 0, source, now))
              && (id in mapInfo ==> mapInfo[id].(randomPos := 0) == FirstHeard(addr, source, penalty))
      ensures OthersSame(old(mapInfo), mapInfo, old(nIdCount), lost)
    {
      hide NewOk, TriedOk, AddrOk, RandomOk, TriedIds, NewIds, LimboOk, OccupiedKept, IdsOk, StatsOk, SameBut, FreeFor;
      hide TakesSlot, NewAfter;
      assert NewOk(layout, mapInfo, vvNew, {});
      SurvivesSame(mapInfo, nIdCount, vvTried);
      var id := Create(addr, source);
      nNew := nNew + 1;
      var info := mapInfo[id];
      info := info.(addr := info.addr.(time := Max(0, info.addr.time - penalty)));
      Retime(id, info, {id}, 1);
      assert mapInfo == old(mapInfo)[id := info];
      lost := Place(id, source, now);
      NewAfterCreate(layout, old(mapInfo), old(vvNew), id, info, source, now);
      OthersSameFrom(old(mapInfo), mapInfo, id, info, lost);
      SurvivesAdd(old(mapInfo), id, info, mapInfo, lost, now);
      if old(CollOk()) {
        CollisionsKept(layout, old(mapInfo), mapInfo, vvTried, vvTried, triedCollisions, old(nIdCount), nIdCount);
      }
    }

    method Attempt_(addr: Service, countFailure: bool, time: int)
      requires Valid() && time >= 0
      modifies `mapInfo
      ensures Valid() && Onward(-1)
      ensures old(CollOk()) ==> CollOk()
      ensures var id := KnownId(old(mapInfo), old(mapAddr), addr);
              if id == -1 then mapInfo == old(mapInfo)
              else
                && id in old(mapInfo)
                && var info := old(mapInfo)[id];
                mapInfo == old(mapInfo)[id :=
                  if countFailure && info.lastCountAttempt < nLastGood
                  then info.(lastTry := time, lastCountAttempt := time, attempts := info.attempts + 1)
                  else info.(lastTry := time)]
    {
      hide NewOk, TriedOk, AddrOk, RandomOk, IdsOk, TriedIds, NewIds, LimboOk, OccupiedKept, Survives;
      SurvivesSame(mapInfo, nIdCount, vvTried);
      NewSized(layout, mapInfo, vvNew, {});
      if addr.ip in mapAddr {
        IndexFound(mapInfo, mapAddr, addr.ip);
        var id := mapAddr[addr.ip];
        var info := mapInfo[id];
        if info.service == addr {
          info := info.(lastTry := time);
          if countFailure && info.lastCountAttempt < nLastGood {
            info := info.(lastCountAttempt := time, attempts := info.attempts + 1);
          }
          TouchOnward(id, info);
        }
      }
    }

    /** Touch, with what it means for the collisions. */
    method TouchOnward(id: int, info: AddrInfo)
      requires Valid() && id in mapInfo && StatsFine(info)
      requires info.service == mapInfo[id].service && info.randomPos == mapInfo[id].randomPos
      requires info.refCount == mapInfo[id].refCount && info.inTried == mapInfo[id].inTried
      modifies `mapInfo
      ensures Valid() && mapInfo == old(mapInfo)[id := info] && Onward(-1)
      ensures old(CollOk()) ==> CollOk()
    {
      hide NewOk, TriedOk, AddrOk, RandomOk, IdsOk, StatsOk, TriedIds, NewIds, LimboOk, OccupiedKept, Survives;
      Touch(id, info);
      SurvivesSame(mapInfo, nIdCount, vvTried);
      SurvivesTouch(old(mapInfo), id, info, mapInfo, nIdCount, -1);
      if old(CollOk()) {
        SurvivesServices(old(mapInfo), mapInfo, nIdCount, -1);
        CollisionsKept(layout, old(mapInfo), mapInfo, vvTried, vvTried, triedCollisions, nIdCount, nIdCount);
      }
    }

    /**
     Random non-terrible entries for a peer.  No address is returned twice, and when neither limit
     cuts the list short it is complete.  `draws` are the random positions.
     */
    method GetAddr_(maxAddresses: nat, maxPct: nat, now: int, draws: seq<nat>) returns (addrs: seq<Address>)
      requires Valid() && |draws| == |vRandom|
      modifies `mapInfo, `vRandom
      ensures Valid() && Onward(-1) && SameBut(old(mapInfo), mapInfo, {})
      ensures old(CollOk()) ==> CollOk()
      ensures |addrs| <= NodeLimit(|old(vRandom)|, maxAddresses, maxPct)
      ensures forall i, j :: 0 <= i < j < |addrs| ==> addrs[i].service.ip != addrs[j].service.ip
      ensures forall i :: 0 <= i < |addrs| ==> GoodOne(old(mapInfo), addrs[i], now)
      ensures |addrs| < NodeLimit(|old(vRandom)|, maxAddresses, maxPct) ==>
                forall n :: n in old(mapInfo) && !old(mapInfo)[n].IsTerrible(now) ==> old(mapInfo)[n].addr in addrs
    {
      hide NewOk, TriedOk, AddrOk, RandomOk, IdsOk, StatsOk, TriedIds, NewIds, LimboOk, SameBut, OccupiedKept, Survives;
      hide Picked;
      var limit := NodeLimit(|vRandom|, maxAddresses, maxPct);
      var n;
      n, addrs := Gather(limit, now, draws);
      SurvivesSame(mapInfo, nIdCount, vvTried);
      SurvivesNone(old(mapInfo), mapInfo, nIdCount);
      if old(CollOk()) {
        SurvivesServices(old(mapInfo), mapInfo, nIdCount, -1);
        CollisionsKept(layout, old(mapInfo), mapInfo, vvTried, vvTried, triedCollisions, nIdCount, nIdCount);
      }
      RandomDistinct(mapInfo, vRandom, n);
      PickedSound(old(mapInfo), old(mapAddr), vRandom[..n], now);
      forall i | 0 <= i < |addrs| ensures GoodOne(old(mapInfo), addrs[i], now) {
        GoodIsGood(old(mapInfo), vRandom[..n], addrs[i], now);
      }
      if |addrs| < limit {
        assert vRandom[..n] == vRandom;
        forall m | m in old(mapInfo) && !old(mapInfo)[m].IsTerrible(now) ensures old(mapInfo)[m].addr in addrs {
          SameButAt(old(mapInfo), mapInfo, {}, m);
          RandomHas(mapInfo, vRandom, m);
        }
      }
    }

    /** The loop of GetAddr_: a partial Fisher-Yates shuffle that collects good entries. */
    method Gather(limit: nat, now: int, draws: seq<nat>) returns (n: nat, addrs: seq<Address>)
      requires Valid() && |draws| == |vRandom|
      modifies `mapInfo, `vRandom
      ensures Valid() && SameBut(old(mapInfo), mapInfo, {})
      ensures AllKnown(old(mapInfo), vRandom) && n <= |vRandom|
      ensures addrs == Picked(old(mapInfo), vRandom[..n], now)
      ensures |addrs| <= limit && (|addrs| < limit ==> n == |vRandom|)
    {
      hide NewOk, TriedOk, AddrOk, RandomOk, IdsOk, StatsOk, TriedIds, NewIds, LimboOk, SameBut, Picked;
      addrs := [];
      n := 0;
      ghost var none: set<int> := {};
      SameButNone(mapInfo);
      RandomKnown(mapInfo, vRandom);
      PickedNone(mapInfo, now);
      assert vRandom[..0] == [];
      while n < |vRandom| && |addrs| < limit
        invariant Valid() && SameBut(old(mapInfo), mapInfo, {}) && |vRandom| == |draws|
        invariant n <= |vRandom| && |addrs| <= limit
        invariant AllKnown(old(mapInfo), vRandom) && addrs == Picked(old(mapInfo), vRandom[..n], now)
      {
        ghost var infos1, random1 := mapInfo, vRandom;
        SwapRandom(n, draws[n] % (|vRandom| - n) + n, {}, 0);
        SameButChain(old(mapInfo), infos1, mapInfo, none, none);
        assert none + none == none;
        assert vRandom[..n] == random1[..n];
        RandomKnown(mapInfo, vRandom);
        SameButBack(old(mapInfo), mapInfo, vRandom, n);
        PickedNext(old(mapInfo), vRandom, n, now);
        if !mapInfo[vRandom[n]].IsTerrible(now) {
          addrs := addrs + [mapInfo[vRandom[n]].addr];
        }
        n := n + 1;
      }
    }

    /** The body of the ResolveCollisions_ loop.  `phantom` is the branch for a slot that is free after all. */
    method ResolveOne(id: int, now: int, rnd: nat) returns (phantom: bool)
      requires Valid() && now > 0 && id in triedCollisions
      modifies `mapInfo, `vvTried, `nTried, `vRandom, `mapAddr, `nNew, `vvNew, `nLastGood, `triedCollisions
      ensures Valid() && OccupiedKept(old(vvTried), vvTried) && layout == old(layout)
      ensures old(CollOk()) ==> CollOk() && !phantom
      ensures RecentKept(old(mapInfo), mapInfo, now, -1) && ServicesKept(old(mapInfo), mapInfo)
      ensures match VerdictOn(layout, old(mapInfo), old(vvTried), id, now)
              case Keep => mapInfo == old(mapInfo) && vvTried == old(vvTried) && triedCollisions == old(triedCollisions)
              case Erase => mapInfo == old(mapInfo) && vvTried == old(vvTried) && triedCollisions == old(triedCollisions) - {id}
              case Replace => && id in mapInfo && mapInfo[id].inTried
                              && mapInfo[id].lastSuccess == mapInfo[id].lastTry == now && mapInfo[id].attempts == 0
                              && triedCollisions == old(triedCollisions) - {id}
      ensures Resolved(layout, id, now, old(Books()), Books())
    {
      hide NewOk, TriedOk, AddrOk, RandomOk, IdsOk, StatsOk, TriedIds, NewIds, LimboOk, OccupiedKept, Survives;
      hide CollisionsOk, KnownId, GoodEffect, Put;
      phantom := false;
      SurvivesSame(mapInfo, nIdCount, vvTried);
      NewSized(layout, mapInfo, vvNew, {});
      TriedSized(layout, mapInfo, vvTried);
      var verdict := Erase;
      if id in mapInfo && layout.valid(mapInfo[id].service.ip) {
        var info := mapInfo[id];
        if old(CollOk()) {
          CollisionOccupied(layout, mapInfo, vvTried, triedCollisions, id, nIdCount);
        }
        var b, p := layout.TriedBucket(info.service), layout.TriedPosition(info.service);
        var incumbent := vvTried[b][p];
        if incumbent != -1 {
          SlotIsTried(layout, mapInfo, vvTried, b, p);
          verdict := Judge(mapInfo[incumbent], info, now);
        } else {
          phantom, verdict := true, Replace;
        }
        if verdict.Replace? {
          IndexKnown(mapInfo, mapAddr, id);
          ghost var lost;
          var gaveUp;
          gaveUp, lost := Good_(info.service, false, now, rnd);
          GoodHasEffect(layout, old(Books()), Books(), info.service, false, now, lost);
          SurvivesServices(old(mapInfo), mapInfo, nIdCount, lost);
          AllBounded(mapInfo, nIdCount);
        }
      }
      if !verdict.Keep? {
        if CollOk() {
          CollisionsFewer(layout, mapInfo, vvTried, triedCollisions, id, nIdCount);
        }
        triedCollisions := triedCollisions - {id};
      }
    }

    /**
     Resolves collisions in some order.  A tried entry that connected recently keeps its place, and
     no collision turns out to be a phantom.
     */
    method ResolveCollisions_(now: int, draws: int -> nat) returns (phantom: bool, ghost order: seq<int>, ghost trail: seq<Snap>)
      requires Valid() && now > 0
      modifies `mapInfo, `vvTried, `nTried, `vRandom, `mapAddr, `nNew, `vvNew, `nLastGood, `triedCollisions
      ensures Valid() && OccupiedKept(old(vvTried), vvTried)
      ensures triedCollisions <= old(triedCollisions)
      ensures old(CollOk()) ==> CollOk() && !phantom
      ensures RecentKept(old(mapInfo), mapInfo, now, -1) && ServicesKept(old(mapInfo), mapInfo)
      ensures forall id :: id in old(triedCollisions) && AgainstRecent(layout, old(mapInfo), old(vvTried), id, now) ==>
                id !in triedCollisions
      ensures Lists(order, old(triedCollisions)) && AllResolved(layout, now, old(Books()), Books(), order, trail)
    {
      hide AgainstRecent, VerdictOn, ServicesKept, RecentKept, Resolved, Lists, AllResolved;
      hide NewOk, TriedOk, AddrOk, RandomOk, IdsOk, StatsOk, TriedIds, NewIds, LimboOk, OccupiedKept, CollisionsOk;
      phantom := false;
      SurvivesSame(mapInfo, nIdCount, vvTried);
      KeptSame(mapInfo, now);
      AllBounded(mapInfo, nIdCount);
      var todo := triedCollisions;
      order, trail := [], [Books()];
      NoneResolved(layout, now, Books());
      while todo != {}
        invariant Lists(order, old(triedCollisions) - todo) && AllResolved(layout, now, old(Books()), Books(), order, trail)
        invariant Valid() && OccupiedKept(old(vvTried), vvTried)
        invariant todo <= triedCollisions <= old(triedCollisions)
        invariant old(CollOk()) ==> CollOk() && !phantom
        invariant RecentKept(old(mapInfo), mapInfo, now, -1) && ServicesKept(old(mapInfo), mapInfo)
        invariant layout == old(layout)
        invariant forall id | id in old(triedCollisions) - todo && AgainstRecent(layout, old(mapInfo), old(vvTried), id, now)
                    :: id !in triedCollisions
        decreases todo
      {
        EmptyOrNot(todo);
        var id :| id in todo;
        OneMoreListed(order, old(triedCollisions), todo, id);
        todo := todo - {id};
        ghost var tried1, infos1 := vvTried, mapInfo;
        if AgainstRecent(layout, old(mapInfo), old(vvTried), id, now) {
          RecentStays(layout, old(mapInfo), old(vvTried), mapInfo, vvTried, id, now);
        }
        ghost var before := Books();
        var one := ResolveOne(id, now, draws(id));
        OneMoreResolved(layout, now, old(Books()), before, Books(), order, trail, id);
        order, trail := order + [id], trail + [Books()];
        OccupiedChain(old(vvTried), tried1, vvTried);
        KeptChain(old(mapInfo), infos1, mapInfo, now);
        phantom := phantom || one;
      }
      assert old(triedCollisions) - todo == old(triedCollisions);
    }

    /**
     A random colliding incumbent.  Reading mapInfo with a missing key inserts a default entry there;
     `corrupted` says that this happened, which leaves an entry under id -1.
     */
    method SelectTriedCollision_() returns (incumbent: int, corrupted: bool, ghost chosen: int)
      requires Valid()
      modifies `mapInfo, `triedCollisions
      ensures old(triedCollisions) == {} ==> incumbent == -1 && mapInfo == old(mapInfo)
      ensures old(triedCollisions) != {} ==> chosen in old(triedCollisions)
      ensures old(triedCollisions) != {} && chosen in old(mapInfo) ==>
                incumbent == Occupant(layout, vvTried, old(mapInfo)[chosen].service)
      ensures chosen !in old(mapInfo) ==> incumbent == -1
      ensures triedCollisions == if chosen in old(mapInfo) then old(triedCollisions) else old(triedCollisions) - {chosen}
      ensures corrupted <==> old(triedCollisions) != {} && chosen in old(mapInfo)
                             && Occupant(layout, vvTried, old(mapInfo)[chosen].service) == -1
      ensures corrupted ==> -1 in mapInfo && !Valid()
      ensures !corrupted ==> Valid() && mapInfo == old(mapInfo)
      ensures !corrupted && incumbent != -1 ==> incumbent in mapInfo && mapInfo[incumbent].inTried
      ensures old(CollOk()) ==> !corrupted && CollOk()
    {
      hide AddrOk, RandomOk, IdsOk, StatsOk, TriedIds, NewIds, LimboOk, CollisionsOk;
      incumbent, corrupted, chosen := -1, false, -1;
      if triedCollisions == {} {
        return;
      }
      EmptyOrNot(triedCollisions);
      var id :| id in triedCollisions;
      chosen := id;
      if id !in mapInfo {
        if CollOk() {
          CollisionsFewer(layout, mapInfo, vvTried, triedCollisions, id, nIdCount);
        }
        triedCollisions := triedCollisions - {id};
        return;
      }
      if CollOk() {
        CollisionOccupied(layout, mapInfo, vvTried, triedCollisions, id, nIdCount);
      }
      var b, p := layout.TriedBucket(mapInfo[id].service), layout.TriedPosition(mapInfo[id].service);
      incumbent := vvTried[b][p];
      if incumbent !in mapInfo {
        corrupted := true;
        mapInfo := mapInfo[incumbent := DEFAULT_INFO];
      }
    }

    method FreeTable(rows: nat, cols: nat) returns (t: Table)
      ensures Sized(t, rows, cols) && AllFree(t)
    {
      t := [];
      for bucket := 0 to rows
        invariant |t| == bucket && forall b :: 0 <= b < bucket ==> |t[b]| == cols
        invariant AllFree(t)
      {
        var row := [];
        for entry := 0 to cols
          invariant |row| == entry && forall p :: 0 <= p < entry ==> row[p] == -1
        {
          row := row + [-1];
        }
        t := t + [row];
      }
    }

    /** Forgets everything, under new hashes.  The set of collisions is not reset. */
    method Clear(l: Layout)
      modifies this
      ensures Valid() && layout == l && mapInfo == map[] && mapAddr == map[] && nIdCount == 0 && nLastGood == 1
      ensures triedCollisions == old(triedCollisions)
      ensures CollOk() <==> triedCollisions == {}
      ensures AllFree(vvNew) && AllFree(vvTried)
    {
      hide NewOk, TriedOk, AddrOk, RandomOk, IdsOk, StatsOk, TriedIds, NewIds, LimboOk, CollisionsOk, AllFree;
      vRandom, layout := [], l;
      vvNew := FreeTable(l.newBuckets, l.bucketSize);
      vvTried := FreeTable(l.triedBuckets, l.bucketSize);
      nIdCount, nTried, nNew, nLastGood := 0, 0, 0, 1;
      mapInfo, mapAddr := map[], map[];
      NothingKnown(l, vvNew, vvTried);
      CollisionsCleared(l, vvTried, triedCollisions);
    }

    constructor (l: Layout)
      ensures Valid() && CollOk() && layout == l && Books() == Snap(map[], map[], vvNew, vvTried, {}, 0, 1)
      ensures AllFree(vvNew) && AllFree(vvTried)
    {
      triedCollisions := {};
      new;
      Clear(l);
    }

    method Connected_(addr: Service, time: int)
      requires Valid()
      modifies `mapInfo
      ensures Valid() && Onward(-1)
      ensures old(CollOk()) ==> CollOk()
      ensures var id := KnownId(old(mapInfo), old(mapAddr), addr);
              if id != -1 && id in old(mapInfo) && time - old(mapInfo)[id].addr.time > 20 * 60
              then mapInfo == old(mapInfo)[id := old(mapInfo)[id].(addr := old(mapInfo)[id].addr.(time := time))]
              else mapInfo == old(mapInfo)
    {
      hide NewOk, TriedOk, AddrOk, RandomOk, IdsOk, TriedIds, NewIds, LimboOk, OccupiedKept, Survives;
      SurvivesSame(mapInfo, nIdCount, vvTried);
      NewSized(layout, mapInfo, vvNew, {});
      if addr.ip in mapAddr {
        IndexFound(mapInfo, mapAddr, addr.ip);
        var id := mapAddr[addr.ip];
        var info := mapInfo[id];
        if info.service == addr && time - info.addr.time > 20 * 60 {
          TouchOnward(id, info.(addr := info.addr.(time := time)));
        }
      }
    }
  }

  // ---------- whole runs ----------

  /** A call from outside, with the clock readings and random draws it makes. */
  datatype Call =
    | Add(addr: Address, source: NetAddr, penalty: int, now: int, draw: nat)
    | Good(service: Service, testBeforeEvict: bool, time: int, start: nat)
    | Attempt(service: Service, countFailure: bool, time: int)
    | Connected(service: Service, time: int)
    | GetAddr(maxAddresses: nat, maxPct: nat, now: int, draws: nat -> nat)
    | ResolveCollisions(now: int, starts: int -> nat)
    | SelectTriedCollision
  {
    /** Clocks are positive. */
    predicate TimesOk() {
      match this
      case Good(_, _, time, _) => time > 0
      case Attempt(_, _, time) => time >= 0
      case ResolveCollisions(now, _) => now > 0
      case _ => true
    }
  }

  /** What Add_ does to the books. */
  ghost predicate AddEffect(l: Layout, a: Snap, b: Snap, addr: Address, source: NetAddr, timePenalty: int, now: int, draw: nat) {
    var ip := addr.service.ip;
    var penalty := if ip == source then 0 else timePenalty;
    && b.tried == a.tried && b.collisions == a.collisions && b.lastGood == a.lastGood
    && (forall n :: n in a.infos && n !in b.infos ==> a.infos[n].IsTerrible(now))
    && (l.routable(ip) ==> OneLost(a.infos, b.infos, if ip in a.byAddr then a.byAddr[ip] else a.ids))
    && if !l.routable(ip) then b == a
       else if ip in a.byAddr then
         var id := a.byAddr[ip];
         && b.ids == a.ids && id in b.infos
         && HeardAgain(l, a.infos, a.news, id, addr, source, penalty, now, draw, b.infos[id], b.news)
       else
         var id := a.ids;
         && b.ids == id + 1
         && b.news == NewAfter(l, a.infos, a.news, id, addr.service, 0, source, now)
         && (id in b.infos <==> TakesSlot(l, a.infos, a.news, id, addr.service, 0, source, now))
         && (id in b.infos ==> b.infos[id].(randomPos := 0) == FirstHeard(addr, source, penalty))
  }

  /** What Good_ does to the books. */
  ghost predicate GoodEffect(l: Layout, a: Snap, b: Snap, addr: Service, testBeforeEvict: bool, time: int) {
    var id := KnownId(a.infos, a.byAddr, addr);
    && b.lastGood == time && b.ids == a.ids
    && (exists lost :: SameBut(a.infos, b.infos, {id, Occupant(l, a.tried, addr), lost}))
    && RecentKept(a.infos, b.infos, time, Occupant(l, a.tried, addr))
    && if id == -1 then b == a.(lastGood := time)
       else
         && id in a.infos && id in b.infos
         && b.infos[id].lastSuccess == time && b.infos[id].lastTry == time && b.infos[id].attempts == 0
         && if a.infos[id].inTried then b.infos[id].inTried && b.collisions == a.collisions && b.tried == a.tried
            else Promoted(l, id, addr, testBeforeEvict, a.tried, b.tried, a.collisions, b.collisions, b.infos[id].inTried)
  }

  /** What Good_ promises is its effect. */
  lemma GoodHasEffect(l: Layout, a: Snap, b: Snap, addr: Service, testBeforeEvict: bool, time: int, lost: int)
    requires b.lastGood == time && b.ids == a.ids
    requires SameBut(a.infos, b.infos, {KnownId(a.infos, a.byAddr, addr), Occupant(l, a.tried, addr), lost})
    requires RecentKept(a.infos, b.infos, time, Occupant(l, a.tried, addr))
    requires var id := KnownId(a.infos, a.byAddr, addr);
             if id == -1 then b == a.(lastGood := time)
             else
               && id in a.infos && id in b.infos
               && b.infos[id].lastSuccess == time && b.infos[id].lastTry == time && b.infos[id].attempts == 0
               && if a.infos[id].inTried then b.infos[id].inTried && b.collisions == a.collisions && b.tried == a.tried
                  else Promoted(l, id, addr, testBeforeEvict, a.tried, b.tried, a.collisions, b.collisions, b.infos[id].inTried)
    ensures GoodEffect(l, a, b, addr, testBeforeEvict, time)
  {
    hide SameBut, RecentKept, Promoted, KnownId;
  }

  /** What becomes of one collision: kept, dropped, or resolved by promoting the challenger as Good_ does. */
  ghost predicate Resolved(l: Layout, id: int, now: int, a: Snap, b: Snap) {
    match VerdictOn(l, a.infos, a.tried, id, now)
    case Keep => b == a
    case Erase => b == a.(collisions := a.collisions - {id})
    case Replace =>
      && id in a.infos && id in b.infos && b.infos[id].inTried
      && KnownId(a.infos, a.byAddr, a.infos[id].service) == id
      && b.collisions == a.collisions - {id}
      && GoodEffect(l, a, b.(collisions := a.collisions), a.infos[id].service, false, now)
  }

  /** The list names the members of the set, each once. */
  ghost predicate Lists(order: seq<int>, ids: set<int>) {
    && (forall x :: x in order <==> x in ids)
    && forall i, j :: 0 <= i < j < |order| ==> order[i] != order[j]
  }

  /** The collisions are resolved one after the other. */
  ghost predicate AllResolved(l: Layout, now: int, a: Snap, b: Snap, order: seq<int>, trail: seq<Snap>) {
    && |trail| == |order| + 1 && trail[0] == a && trail[|order|] == b
    && forall i :: 0 <= i < |order| ==> Resolved(l, order[i], now, trail[i], trail[i + 1])
  }

  lemma NoneResolved(l: Layout, now: int, a: Snap)
    ensures AllResolved(l, now, a, a, [], [a]) && Lists([], a.collisions - a.collisions)
  {}

  lemma OneMoreResolved(l: Layout, now: int, a: Snap, b: Snap, c: Snap, order: seq<int>, trail: seq<Snap>, id: int)
    requires AllResolved(l, now, a, b, order, trail) && Resolved(l, id, now, b, c)
    ensures AllResolved(l, now, a, c, order + [id], trail + [c])
  {
    hide Resolved;
  }

  lemma OneMoreListed(order: seq<int>, ids: set<int>, todo: set<int>, id: int)
    requires Lists(order, ids - todo) && id in ids && id in todo
    ensures Lists(order + [id], ids - (todo - {id}))
  {}

  /** A challenger that is not yet tried gets the slot it competed for. */
  lemma ReplacedGetsSlot(l: Layout, id: int, now: int, a: Snap, b: Snap)
    requires Resolved(l, id, now, a, b) && VerdictOn(l, a.infos, a.tried, id, now) == Replace && !a.infos[id].inTried
    ensures Occupant(l, b.tried, a.infos[id].service) == id
  {}

  /** The entries after Attempt_ and Connected_. */
  function Attempted(infos: Infos, id: int, countFailure: bool, time: int, lastGood: int): Infos {
    if id !in infos then infos
    else
      var i := infos[id];
      infos[id := if countFailure && i.lastCountAttempt < lastGood
                  then i.(lastTry := time, lastCountAttempt := time, attempts := i.attempts + 1)
                  else i.(lastTry := time)]
  }

  function Reconnected(infos: Infos, id: int, time: int): Infos {
    if id in infos && time - infos[id].addr.time > 20 * 60
    then infos[id := infos[id].(addr := infos[id].addr.(time := time))]
    else infos
  }

  /** What a call does to the books. */
  ghost predicate Effect(l: Layout, call: Call, a: Snap, b: Snap) {
    match call
    case Add(addr, source, penalty, now, draw) => AddEffect(l, a, b, addr, source, penalty, now, draw)
    case Good(service, testBeforeEvict, time, _) => GoodEffect(l, a, b, service, testBeforeEvict, time)
    case Attempt(service, countFailure, time) =>
      b == a.(infos := Attempted(a.infos, KnownId(a.infos, a.byAddr, service), countFailure, time, a.lastGood))
    case Connected(service, time) =>
      b == a.(infos := Reconnected(a.infos, KnownId(a.infos, a.byAddr, service), time))
    case GetAddr(_, _, _, _) => b == a.(infos := b.infos) && SameBut(a.infos, b.infos, {})
    case ResolveCollisions(now, _) =>
      && b.collisions <= a.collisions && b.ids == a.ids
      && RecentKept(a.infos, b.infos, now, -1) && ServicesKept(a.infos, b.infos)
      && (exists order, trail :: Lists(order, a.collisions) && AllResolved(l, now, a, b, order, trail))
      && forall id :: id in a.collisions && AgainstRecent(l, a.infos, a.tried, id, now) ==> id !in b.collisions
    case SelectTriedCollision =>
      && b == a.(collisions := b.collisions)
      && forall id :: id in a.collisions && id !in b.collisions ==> id !in a.infos
  }

  /** Performs one call; `alarm` collects every outcome that the source treats as impossible. */
  method Perform(m: Manager, call: Call) returns (alarm: bool)
    requires m.Valid() && m.CollOk() && call.TimesOk()
    modifies m
    ensures m.Valid() && m.CollOk() && !alarm
    ensures m.layout == old(m.layout) && OccupiedKept(old(m.vvTried), m.vvTried)
    ensures Effect(m.layout, call, old(m.Books()), m.Books())
  {
    hide NewOk, TriedOk, AddrOk, RandomOk, IdsOk, StatsOk, TriedIds, NewIds, LimboOk, OccupiedKept, CollisionsOk;
    hide Survives, RecentKept, SameBut, TakesSlot, NewAfter, FirstHeard, HeardAgain, Promoted, AgainstRecent, ServicesKept;
    hide FreeFor, OthersSame, AllResolved, Lists;
    alarm := false;
    SurvivesSame(m.mapInfo, m.nIdCount, m.vvTried);
    AllBounded(m.mapInfo, m.nIdCount);
    match call {
      case Add(addr, source, penalty, now, draw) =>
        ghost var lost;
        var isNew;
        isNew, lost := m.Add_(addr, source, penalty, now, draw);
      case Good(service, testBeforeEvict, time, start) =>
        ghost var lost;
        alarm, lost := m.Good_(service, testBeforeEvict, time, start);
      case Attempt(service, countFailure, time) =>
        m.Attempt_(service, countFailure, time);
      case Connected(service, time) =>
        m.Connected_(service, time);
      case GetAddr(maxAddresses, maxPct, now, draws) =>
        var ds: seq<nat> := seq(|m.vRandom|, i requires i >= 0 => draws(i));
        var addrs := m.GetAddr_(maxAddresses, maxPct, now, ds);
      case ResolveCollisions(now, starts) =>
        ghost var order, trail;
        alarm, order, trail := m.ResolveCollisions_(now, starts);
      case SelectTriedCollision =>
        ghost var chosen;
        var incumbent;
        incumbent, alarm, chosen := m.SelectTriedCollision_();
    }
  }

  /**
   From a fresh manager and without a later Clear, every run keeps the whole invariant and never takes an exit
   that the source treats as impossible.  `trace` are the books before the first call and after each: every call
   has its effect, and a "tried" slot that is occupied at some time is occupied at every later time.
   */
  method Run(l: Layout, calls: seq<Call>) returns (m: Manager, alarms: seq<bool>, ghost trace: seq<Snap>)
    requires forall i :: 0 <= i < |calls| ==> calls[i].TimesOk()
    ensures fresh(m) && m.layout == l && m.Valid() && m.CollOk()
    ensures |alarms| == |calls| && forall i :: 0 <= i < |alarms| ==> !alarms[i]
    ensures |trace| == |calls| + 1 && trace[|calls|] == m.Books()
    ensures trace[0].infos == map[] && AllFree(trace[0].news) && AllFree(trace[0].tried) && trace[0].collisions == {}
    ensures forall i :: 0 <= i < |calls| ==> Effect(l, calls[i], trace[i], trace[i + 1])
    ensures forall i, j :: 0 <= i <= j < |trace| ==> OccupiedKept(trace[i].tried, trace[j].tried)
  {
    hide NewOk, TriedOk, AddrOk, RandomOk, IdsOk, StatsOk, TriedIds, NewIds, LimboOk, OccupiedKept, CollisionsOk;
    hide Effect, AllFree;
    m := new Manager(l);
    alarms, trace := [], [m.Books()];
    SurvivesSame(m.mapInfo, m.nIdCount, m.vvTried);
    for i := 0 to |calls|
      invariant fresh(m) && m.layout == l && m.Valid() && m.CollOk()
      invariant |alarms| == i && forall j :: 0 <= j < i ==> !alarms[j]
      invariant |trace| == i + 1 && trace[i] == m.Books()
      invariant trace[0].infos == map[] && AllFree(trace[0].news) && AllFree(trace[0].tried) && trace[0].collisions == {}
      invariant forall j :: 0 <= j < i ==> Effect(l, calls[j], trace[j], trace[j + 1])
      invariant forall j, k :: 0 <= j <= k < |trace| ==> OccupiedKept(trace[j].tried, trace[k].tried)
    {
      var alarm := Perform(m, calls[i]);
      forall j | 0 <= j <= i ensures OccupiedKept(trace[j].tried, m.vvTried) {
        OccupiedChain(trace[j].tried, trace[i].tried, m.vvTried);
      }
      SurvivesSame(m.mapInfo, m.nIdCount, m.vvTried);
      alarms, trace := alarms + [alarm], trace + [m.Books()];
    }
  }

  // ---------- collisions that outlive Clear ----------

  /** Two addresses select different "new" slots. */
  predicate SlotsDiffer(l: Layout, a: Service, b: Service, source: NetAddr) {
    var x, y := l.NewBucket(a.ip, source), l.NewBucket(b.ip, source);
    x != y || l.Position(true, x, a) != l.Position(true, y, b)
  }

  /** The addresses are routable and distinct, and the last one selects a "new" slot of its own. */
  predicate Announced(l: Layout, addrs: seq<Address>, source: NetAddr) {
    && addrs != []
    && (forall i :: 0 <= i < |addrs| ==> l.routable(addrs[i].service.ip))
    && (forall i, j :: 0 <= i < j < |addrs| ==> addrs[i].service.ip != addrs[j].service.ip)
    && (forall i :: 0 <= i < |addrs| - 1 ==> SlotsDiffer(l, addrs[i].service, addrs[|addrs| - 1].service, source))
  }

  /** Id n is the n-th address. */
  ghost predicate Numbered(infos: Infos, addrs: seq<Address>, i: nat) {
    forall n :: n in infos ==> 0 <= n < i <= |addrs| && infos[n].service == addrs[n].service
  }

  /** An address that was not added before is unknown. */
  lemma NotKnownYet(infos: Infos, byAddr: map<NetAddr, int>, addrs: seq<Address>, i: nat)
    requires Numbered(infos, addrs, i) && AddrOk(infos, byAddr) && i < |addrs|
    requires forall j, k :: 0 <= j < k < |addrs| ==> addrs[j].service.ip != addrs[k].service.ip
    ensures addrs[i].service.ip !in byAddr
  {
    forall n | n in infos ensures infos[n].service.ip != addrs[i].service.ip {}
  }

  lemma NumberedNext(a: Infos, b: Infos, addrs: seq<Address>, i: nat, lost: int)
    requires Numbered(a, addrs, i) && i < |addrs| && Survives(a, b, i, lost) && IdsOk(b, i + 1)
    requires i in b ==> b[i].service == addrs[i].service
    ensures Numbered(b, addrs, i + 1)
  {}

  /** A slot that the added address does not select stays free. */
  lemma StillFree(l: Layout, infos: Infos, news: Table, id: int, a: Service, b: Service, source: NetAddr, now: int)
    requires SlotsDiffer(l, a, b, source) && FreeFor(l, news, b, source)
    ensures FreeFor(l, NewAfter(l, infos, news, id, a, 0, source, now), b, source)
  {}

  /** Adds the next address of a list to a manager that holds the ones before it. */
  method AddNext(m: Manager, addrs: seq<Address>, i: nat, source: NetAddr, now: int)
    requires m.Valid() && Announced(m.layout, addrs, source) && i < |addrs| && m.nIdCount == i
    requires Numbered(m.mapInfo, addrs, i) && FreeFor(m.layout, m.vvNew, addrs[|addrs| - 1].service, source)
    modifies m`nIdCount, m`mapInfo, m`mapAddr, m`vRandom, m`nNew, m`vvNew
    ensures m.Valid() && m.nIdCount == i + 1 && Numbered(m.mapInfo, addrs, i + 1)
    ensures i + 1 < |addrs| ==> FreeFor(m.layout, m.vvNew, addrs[|addrs| - 1].service, source)
    ensures i + 1 == |addrs| ==> i in m.mapInfo
  {
    hide NewOk, TriedOk, AddrOk, RandomOk, IdsOk, StatsOk, TriedIds, NewIds, LimboOk, CollisionsOk, Survives, OccupiedKept;
    hide TakesSlot, HeardAgain, FirstHeard, NewAfter, FreeFor, Numbered, SlotsDiffer;
    ghost var before, infos := m.vvNew, m.mapInfo;
    NotKnownYet(m.mapInfo, m.mapAddr, addrs, i);
    ghost var lost;
    var isNew;
    isNew, lost := m.Add_(addrs[i], source, 0, now, 0);
    NumberedNext(infos, m.mapInfo, addrs, i, lost);
    if i + 1 < |addrs| {
      StillFree(m.layout, infos, before, i, addrs[i].service, addrs[|addrs| - 1].service, source, now);
    }
  }

  /** Adding addresses to a cleared manager gives the last one the id that is one less than their number. */
  method AddAll(m: Manager, addrs: seq<Address>, source: NetAddr, now: int)
    requires m.Valid() && m.mapInfo == map[] && m.nIdCount == 0 && AllFree(m.vvNew) && Announced(m.layout, addrs, source)
    modifies m`nIdCount, m`mapInfo, m`mapAddr, m`vRandom, m`nNew, m`vvNew
    ensures m.Valid() && |addrs| - 1 in m.mapInfo
  {
    hide TriedOk, AddrOk, RandomOk, IdsOk, StatsOk, TriedIds, NewIds, LimboOk, CollisionsOk, Announced, NewOk;
    NewSized(m.layout, m.mapInfo, m.vvNew, {});
    ghost var l := m.layout;
    assert addrs != [] by { AnnouncedSome(l, addrs, source); }
    for i := 0 to |addrs|
      invariant m.Valid() && m.nIdCount == i && Numbered(m.mapInfo, addrs, i) && m.layout == l
      invariant i < |addrs| ==> FreeFor(m.layout, m.vvNew, addrs[|addrs| - 1].service, source)
      invariant i == |addrs| ==> i - 1 in m.mapInfo
    {
      AddNext(m, addrs, i, source, now);
    }
  }

  lemma AnnouncedSome(l: Layout, addrs: seq<Address>, source: NetAddr)
    requires Announced(l, addrs, source)
    ensures addrs != []
  {}

  /** With no "tried" entry, choosing collisions goes wrong at the latest when a known id is chosen. */
  method Choose(m: Manager, ghost id: int) returns (corrupted: bool)
    requires m.Valid() && AllFree(m.vvTried) && id in m.triedCollisions && id in m.mapInfo
    modifies m`mapInfo, m`triedCollisions
    ensures corrupted && -1 in m.mapInfo && !m.Valid()
  {
    hide NewOk, AddrOk, RandomOk, IdsOk, StatsOk, TriedIds, NewIds, LimboOk, CollisionsOk;
    corrupted := false;
    while !corrupted
      invariant AllFree(m.vvTried)
      invariant !corrupted ==> m.Valid() && id in m.triedCollisions && id in m.mapInfo
      invariant corrupted ==> -1 in m.mapInfo && !m.Valid()
      decreases if corrupted then 0 else |m.triedCollisions| + 1
    {
      ghost var chosen;
      var incumbent;
      ghost var before := m.triedCollisions;
      incumbent, corrupted, chosen := m.SelectTriedCollision_();
      if !corrupted { assert |before - {chosen}| == |before| - 1; }
    }
  }

  /**
   Clear keeps the old collisions although ids start again at zero.  Whatever id is among them, once that many
   addresses have been added again, choosing collisions inserts an entry under id -1.
   */
  method StaleCollision(m: Manager, l: Layout, id: nat, addrs: seq<Address>, source: NetAddr, now: int)
    returns (corrupted: bool)
    requires id in m.triedCollisions && |addrs| == id + 1 && Announced(l, addrs, source)
    modifies m
    ensures corrupted && -1 in m.mapInfo && !m.Valid()
  {
    hide NewOk, TriedOk, AddrOk, RandomOk, IdsOk, StatsOk, TriedIds, NewIds, LimboOk, CollisionsOk, Announced, AllFree;
    m.Clear(l);
    AddAll(m, addrs, source, now);
    corrupted := Choose(m, id);
  }

  /**
   How a collision arises: of two addresses with the same "tried" slot the second one is promoted, and the first one
   has to wait for a test of the second.
   */
  method MeetCollision(l: Layout, a: Address, b: Address, source: NetAddr, now: int, time: int) returns (m: Manager)
    requires l.routable(a.service.ip) && l.routable(b.service.ip) && a.service.ip != b.service.ip && time > 0
    requires SlotsDiffer(l, a.service, b.service, source)
    requires l.TriedBucket(a.service) == l.TriedBucket(b.service)
    requires l.TriedPosition(a.service) == l.TriedPosition(b.service)
    ensures fresh(m) && m.Valid() && m.CollOk() && m.triedCollisions == {0}
  {
    hide NewOk, TriedOk, AddrOk, RandomOk, IdsOk, StatsOk, TriedIds, NewIds, LimboOk, CollisionsOk, OccupiedKept;
    hide TakesSlot, HeardAgain, FirstHeard, NewAfter, SlotsDiffer;
    m := new Manager(l);
    AddBoth(m, a, b, source, now);
    PromoteSecond(m, a, b, time);
  }

  /** Two new addresses with "new" slots of their own. */
  method AddBoth(m: Manager, a: Address, b: Address, source: NetAddr, now: int)
    requires m.Valid() && m.CollOk() && m.Books() == Snap(map[], map[], m.vvNew, m.vvTried, {}, 0, 1) && AllFree(m.vvNew)
    requires m.layout.routable(a.service.ip) && m.layout.routable(b.service.ip) && a.service.ip != b.service.ip
    requires SlotsDiffer(m.layout, a.service, b.service, source)
    modifies m`nIdCount, m`mapInfo, m`mapAddr, m`vRandom, m`nNew, m`vvNew
    ensures m.Valid() && m.CollOk() && 0 in m.mapInfo && 1 in m.mapInfo
    ensures m.mapInfo[0].service == a.service && !m.mapInfo[0].inTried
    ensures m.mapInfo[1].service == b.service && !m.mapInfo[1].inTried
  {
    hide NewOk, TriedOk, AddrOk, RandomOk, IdsOk, StatsOk, TriedIds, NewIds, LimboOk, CollisionsOk, OccupiedKept;
    hide TakesSlot, HeardAgain, NewAfter, SlotsDiffer;
    NewSized(m.layout, m.mapInfo, m.vvNew, {});
    ghost var lost, news, infos := -1, m.vvNew, m.mapInfo;
    var isNew;
    isNew, lost := m.Add_(a, source, 0, now, 0);
    StillFree(m.layout, infos, news, 0, a.service, b.service, source, now);
    NumberedNext(infos, m.mapInfo, [a, b], 0, lost);
    NotKnownYet(m.mapInfo, m.mapAddr, [a, b], 1);
    isNew, lost := m.Add_(b, source, 0, now, 0);
  }

  /** Promotes the second entry into the "tried" slot of both, and then marks the first one good. */
  method PromoteSecond(m: Manager, a: Address, b: Address, time: int)
    requires m.Valid() && m.CollOk() && 0 in m.mapInfo && 1 in m.mapInfo && AllFree(m.vvTried) && m.triedCollisions == {}
    requires m.mapInfo[0].service == a.service && !m.mapInfo[0].inTried && time > 0
    requires m.mapInfo[1].service == b.service && !m.mapInfo[1].inTried
    requires m.layout.TriedBucket(a.service) == m.layout.TriedBucket(b.service)
    requires m.layout.TriedPosition(a.service) == m.layout.TriedPosition(b.service)
    modifies m
    ensures m.Valid() && m.CollOk() && m.triedCollisions == {0}
  {
    hide NewOk, TriedOk, AddrOk, RandomOk, IdsOk, StatsOk, TriedIds, NewIds, LimboOk, CollisionsOk, OccupiedKept;
    hide RecentKept;
    ghost var lost;
    var gaveUp;
    IndexKnown(m.mapInfo, m.mapAddr, 1);
    gaveUp, lost := m.Good_(b.service, false, time, 0);
    IndexKnown(m.mapInfo, m.mapAddr, 0);
    gaveUp, lost := m.Good_(a.service, true, time, 0);
  }

  /** The whole story, from a new manager: a collision, a Clear, one more address, and the books are corrupt. */
  method ClearCorrupts(l: Layout, a: Address, b: Address, source: NetAddr, now: int, time: int, l': Layout, c: Address)
    returns (m: Manager, corrupted: bool)
    requires l.routable(a.service.ip) && l.routable(b.service.ip) && a.service.ip != b.service.ip && time > 0
    requires SlotsDiffer(l, a.service, b.service, source)
    requires l.TriedBucket(a.service) == l.TriedBucket(b.service)
    requires l.TriedPosition(a.service) == l.TriedPosition(b.service)
    requires l'.routable(c.service.ip)
    ensures corrupted && -1 in m.mapInfo && !m.Valid()
  {
    hide NewOk, TriedOk, AddrOk, RandomOk, IdsOk, StatsOk, TriedIds, NewIds, LimboOk, CollisionsOk;
    m := MeetCollision(l, a, b, source, now, time);
    corrupted := StaleCollision(m, l', 0, [c], source, now);
  }
}
