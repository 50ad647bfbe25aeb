/**
Compact blocks (BIP 152): building a message from a block, and reconstructing the block from the message, the
memory pool and requested transactions.  Models src/blockencodings.cpp and src/blockencodings.h.
*/
module CompactBlock {
  import opened Common

  /** A transaction, as far as this code looks at it. */
  datatype Tx = Tx(hash: int, witnessHash: int, hogEx: bool, isNull: bool)

  type uint16 = x: nat | x < 0x1_0000

  /** index is the distance from the previous prefilled transaction. */
  datatype Prefilled = Prefilled(index: uint16, tx: Tx)

  datatype Message = Message(headerNull: bool, mweb: bool, shortIds: seq<int>, prefilled: seq<Prefilled>)
  {
    function BlockTxCount(): nat { |shortIds| + |prefilled| }
  }

  datatype ReadStatus = OK | INVALID | FAILED | CHECKBLOCK_FAILED

  /** MAX_BLOCK_WEIGHT / MIN_SERIALIZABLE_TRANSACTION_WEIGHT. */
  const MAX_TXS: nat := 4000000 / 40

  // ------------------------------------------------------------------ slots

  type Slots = seq<Option<Tx>>

  /** The empty slots, in order. */
  ghost function Free(s: Slots): (f: seq<nat>)
    ensures forall i :: 0 <= i < |f| ==> f[i] < |s| && s[f[i]] == None
    ensures forall i, j :: 0 <= i < j < |f| ==> f[i] < f[j]
    ensures forall p :: 0 <= p < |s| && s[p] == None ==> p in f
  {
    if s == [] then []
    else if s[|s| - 1] == None then Free(s[..|s| - 1]) + [|s| - 1]
    else Free(s[..|s| - 1])
  }

  lemma FreeNext(s: Slots, p: nat)
    requires p < |s|
    ensures Free(s[..p + 1]) == if s[p] == None then Free(s[..p]) + [p] else Free(s[..p])
  {
    var t := s[..p + 1];
    assert t[..|t| - 1] == s[..p];
  }

  /** The empty slots of a prefix come first. */
  lemma {:induction false} FreePrefix(s: Slots, p: nat)
    requires p <= |s|
    ensures Free(s[..p]) <= Free(s)
    decreases |s|
  {
    if p < |s| {
      FreePrefix(s[..|s| - 1], p);
      assert s[..|s| - 1][..p] == s[..p];
    } else {
      assert s[..p] == s;
    }
  }

  lemma {:induction false} FreeFill(s: Slots, p: nat, t: Tx)
    requires p < |s| && s[p] == None
    ensures |Free(s[p := Some(t)])| == |Free(s)| - 1
    decreases |s|
  {
    hide Free;
    var n := |s| - 1;
    var s' := s[p := Some(t)];
    FreeNext(s, n);
    FreeNext(s', n);
    assert s[..n + 1] == s && s'[..n + 1] == s';
    if p < n {
      assert s'[..n] == s[..n][p := Some(t)];
      FreeFill(s[..n], p, t);
    } else {
      assert s'[..n] == s[..n];
    }
  }

  function Blank(n: nat): (s: Slots)
    ensures |s| == n && forall i :: 0 <= i < n ==> s[i] == None
  {
    seq(n, _ => None)
  }

  lemma {:induction false} FreeBlank(n: nat)
    ensures |Free(Blank(n))| == n
  {
    if n > 0 {
      assert Blank(n)[..n - 1] == Blank(n - 1);
      FreeBlank(n - 1);
    }
  }

  // ------------------------------------------------------------------ prefilled transactions

  /** The block position of prefilled transaction i. */
  ghost function Position(pre: seq<Prefilled>, i: int): (p: int)
    requires -1 <= i < |pre|
    ensures p >= i
    decreases i + 1
  {
    if i < 0 then -1 else Position(pre, i - 1) + pre[i].index + 1
  }

  lemma {:induction false} PositionMono(pre: seq<Prefilled>, i: int, j: int)
    requires -1 <= i <= j < |pre|
    ensures Position(pre, i) <= Position(pre, j)
    ensures i < j ==> Position(pre, i) < Position(pre, j)
    decreases j - i
  {
    if i < j { PositionMono(pre, i, j - 1); }
  }

  /** The tests the prefilled transactions pass. */
  ghost predicate PrefilledOk(m: Message, k: nat)
    requires k <= |m.prefilled|
  {
    forall i :: 0 <= i < k ==>
      && !m.prefilled[i].tx.isNull
      && Position(m.prefilled, i) <= 0xFFFF
      && Position(m.prefilled, i) <= |m.shortIds| + i
  }

  /** The first k prefilled transactions are in their slots, and all other slots are empty. */
  ghost predicate Placed(s: Slots, m: Message, k: nat) {
    && k <= |m.prefilled| && |s| == m.BlockTxCount()
    && |Free(s)| == m.BlockTxCount() - k
    && (forall i :: 0 <= i < k ==> 0 <= Position(m.prefilled, i) < |s| && s[Position(m.prefilled, i)] == Some(m.prefilled[i].tx))
    && (forall p :: 0 <= p < |s| && s[p] != None ==> exists i :: 0 <= i < k && Position(m.prefilled, i) == p)
  }

  lemma PlaceNext(s: Slots, m: Message, k: nat)
    requires k < |m.prefilled| && PrefilledOk(m, k + 1) && Placed(s, m, k)
    ensures 0 <= Position(m.prefilled, k) < |s|
    ensures Placed(s[Position(m.prefilled, k) := Some(m.prefilled[k].tx)], m, k + 1)
  {
    hide Free, Position;
    var p := Position(m.prefilled, k);
    forall i | 0 <= i < k
      ensures Position(m.prefilled, i) < p
    {
      PositionMono(m.prefilled, i, k);
    }
    FreeFill(s, p, m.prefilled[k].tx);
  }

  // ------------------------------------------------------------------ short ids

  predicate Distinct(ids: seq<int>) { forall i, j :: 0 <= i < j < |ids| ==> ids[i] != ids[j] }

  /** Short id i stands for the i-th slot that is not prefilled. */
  ghost predicate IdsOk(ids: map<int, nat>, short: seq<int>, base: Slots) {
    && |Free(base)| == |short|
    && (forall i :: 0 <= i < |short| ==> short[i] in ids && ids[short[i]] == Free(base)[i])
    && (forall id :: id in ids ==> id in short)
  }

  /** A collision of short ids shows in the number of entries. */
  ghost predicate Counted(ids: map<int, nat>, short: seq<int>) {
    && |ids| <= |short|
    && (|ids| == |short| <==> Distinct(short))
    && (forall id :: id in ids <==> id in short)
  }

  lemma CountNext(ids: map<int, nat>, short: seq<int>, id: int, p: nat)
    requires Counted(ids, short)
    ensures Counted(ids[id := p], short + [id])
  {
    var s := short + [id];
    if id in ids {
      assert ids.Keys == ids[id := p].Keys;
      var j :| 0 <= j < |short| && short[j] == id;
      assert s[j] == s[|short|];
    } else {
      assert ids[id := p].Keys == ids.Keys + {id};
      assert Distinct(s) <==> Distinct(short) by {
        if Distinct(s) {
          assert forall i, j :: 0 <= i < j < |short| ==> s[i] == short[i] && s[j] == short[j];
        }
      }
    }
  }

  // ------------------------------------------------------------------ matching transactions

  /** A transaction offered by the memory pool or the extra list, with the hash its short id is made from. */
  datatype Entry = Entry(hash: int, tx: Tx)

  /** What the candidates for one short id amount to. */
  datatype Match = Nothing | Held(tx: Tx) | Clash

  /** A second candidate clashes, unless it is an extra one with the same witness hash. */
  function Step(x: Match, tx: Tx, extra: bool): (y: Match) {
    match x
    case Nothing => Held(tx)
    case Held(u) => if extra && u.witnessHash == tx.witnessHash then x else Clash
    case Clash => Clash
  }

  /** All candidates of a list for one short id, after a start. */
  ghost function MatchOf(start: Match, list: seq<Entry>, sid: int -> int, id: int, extra: bool): (x: Match) {
    if list == [] then start
    else
      var e := list[|list| - 1];
      var y := MatchOf(start, list[..|list| - 1], sid, id, extra);
      if sid(e.hash) == id then Step(y, e.tx, extra) else y
  }

  function Shown(x: Match): Option<Tx> { if x.Held? then Some(x.tx) else None }

  /** The entries of a list whose short id is id. */
  ghost function Candidates(list: seq<Entry>, sid: int -> int, id: int): (c: seq<Tx>) {
    if list == [] then []
    else
      var e := list[|list| - 1];
      var c := Candidates(list[..|list| - 1], sid, id);
      if sid(e.hash) == id then c + [e.tx] else c
  }

  /** Out of the memory pool a slot is filled exactly if there is one candidate for it. */
  lemma {:induction false} PoolMatch(list: seq<Entry>, sid: int -> int, id: int)
    ensures
      var c := Candidates(list, sid, id);
      MatchOf(Nothing, list, sid, id, false) == if |c| == 0 then Nothing else if |c| == 1 then Held(c[0]) else Clash
  {
    if list != [] { PoolMatch(list[..|list| - 1], sid, id); }
  }

  /** Extra transactions fill a slot exactly if all candidates, with the pool's, agree on the witness hash. */
  lemma {:induction false} ExtraMatch(start: Match, list: seq<Entry>, sid: int -> int, id: int)
    ensures
      var c := Candidates(list, sid, id);
      MatchOf(start, list, sid, id, true) ==
        if c == [] then start
        else if start == Clash then Clash
        else
          var first := if start.Held? then start.tx else c[0];
          if forall i :: 0 <= i < |c| ==> c[i].witnessHash == first.witnessHash then Held(first) else Clash
  {
    if list != [] {
      var n := |list| - 1;
      ExtraMatch(start, list[..n], sid, id);
      var c, d := Candidates(list[..n], sid, id), Candidates(list, sid, id);
      if sid(list[n].hash) == id {
        assert d[|c|] == list[n].tx && forall i :: 0 <= i < |c| ==> d[i] == c[i];
      }
    }
  }

  /** The slots show the matches of their short ids; the other slots are as in base. */
  ghost predicate Reflects(s: Slots, have: seq<bool>, ids: map<int, nat>, short: seq<int>, base: Slots, found: map<int, Match>) {
    && |s| == |base| == |have|
    && IdsOk(ids, short, base) && Distinct(short)
    && found.Keys == ids.Keys
    && (forall id :: id in ids ==> (have[ids[id]] <==> found[id] != Nothing) && s[ids[id]] == Shown(found[id]))
    && (forall p :: 0 <= p < |s| && base[p] != None ==> s[p] == base[p])
  }

  lemma {:induction false} FreeFewer(s: Slots, base: Slots)
    requires |s| == |base| && forall p :: 0 <= p < |s| && base[p] != None ==> s[p] != None
    ensures |Free(s)| <= |Free(base)|
  {
    if s != [] {
      FreeFewer(s[..|s| - 1], base[..|s| - 1]);
    }
  }

  /** Distinct short ids have distinct slots, all of them empty in base. */
  lemma SlotsApart(ids: map<int, nat>, short: seq<int>, base: Slots, x: int, y: int)
    requires IdsOk(ids, short, base) && x in ids && y in ids
    ensures ids[x] < |base| && base[ids[x]] == None
    ensures x != y ==> ids[x] != ids[y]
  {
    hide Free;
    var i :| 0 <= i < |short| && short[i] == x;
    var j :| 0 <= j < |short| && short[j] == y;
    if x != y {
      assert i != j;
    }
  }

  /** Taking an offered transaction into account in one slot. */
  lemma ReflectsNext(s: Slots, have: seq<bool>, ids: map<int, nat>, short: seq<int>, base: Slots,
                     found: map<int, Match>, id: int, y: Match)
    requires Reflects(s, have, ids, short, base, found) && id in ids && y != Nothing
    ensures ids[id] < |s|
    ensures Reflects(s[ids[id] := Shown(y)], have[ids[id] := true], ids, short, base, found[id := y])
  {
    hide Free, IdsOk, Distinct;
    SlotsApart(ids, short, base, id, id);
    var s', found' := s[ids[id] := Shown(y)], found[id := y];
    assert found'.Keys == ids.Keys;
    forall x | x in ids
      ensures ids[x] < |s|
      ensures (have[ids[id] := true][ids[x]] <==> found'[x] != Nothing) && s'[ids[x]] == Shown(found'[x])
    {
      SlotsApart(ids, short, base, x, id);
    }
  }

  // ------------------------------------------------------------------ reconstruction

  /** The matches after the first k entries of the pool and the first n extra ones. */
  ghost function FoundIn(pool: seq<Entry>, k: nat, extra: seq<Entry>, n: nat, sid: int -> int, id: int): (x: Match)
    requires k <= |pool| && n <= |extra|
  {
    MatchOf(MatchOf(Nothing, pool[..k], sid, id, false), extra[..n], sid, id, true)
  }

  /** Messages that InitData refuses outright. */
  ghost predicate Malformed(m: Message) {
    || m.headerNull || (m.shortIds == [] && m.prefilled == [])
    || m.BlockTxCount() > MAX_TXS
    || !PrefilledOk(m, |m.prefilled|)
  }

  class PartiallyDownloadedBlock {
    var txnAvailable: Slots
    var prefilledCount: nat
    var mempoolCount: nat
    var headerNull: bool
    var mweb: bool

    constructor (mweb: bool)
      ensures txnAvailable == [] && prefilledCount == 0 && mempoolCount == 0 && headerNull && this.mweb == mweb
    {
      txnAvailable, prefilledCount, mempoolCount := [], 0, 0;
      headerNull := true;
      this.mweb := mweb;
    }

    /** Puts the prefilled transactions into their slots. */
    method PlacePrefilled(m: Message) returns (ok: bool)
      requires txnAvailable == Blank(m.BlockTxCount())
      modifies `txnAvailable
      ensures ok <==> PrefilledOk(m, |m.prefilled|)
      ensures ok ==> Placed(txnAvailable, m, |m.prefilled|)
    {
      hide Free, Placed, Position;
      PlaceStart(m);
      var last := -1;
      var i := 0;
      while i < |m.prefilled|
        invariant 0 <= i <= |m.prefilled| && last == Position(m.prefilled, i - 1)
        invariant PrefilledOk(m, i) && Placed(txnAvailable, m, i)
      {
        if m.prefilled[i].tx.isNull {
          return false;
        }
        PositionNext(m.prefilled, i);
        last := last + m.prefilled[i].index + 1;
        if last > 0xFFFF {
          return false;
        }
        if last > |m.shortIds| + i {
          return false;
        }
        PlaceNext(txnAvailable, m, i);
        txnAvailable := txnAvailable[last := Some(m.prefilled[i].tx)];
        i := i + 1;
      }
      return true;
    }

    /** Maps short ids to slots; crowded says when the hash table has an overfull bucket. */
    method MapShortIds(m: Message, crowded: nat -> bool) returns (ids: map<int, nat>, ok: bool)
      requires |Free(txnAvailable)| == |m.shortIds| && |txnAvailable| <= 0xFFFF
      ensures ok <==> Distinct(m.shortIds) && forall i :: 0 <= i < |m.shortIds| ==> !crowded(i)
      ensures ok ==> IdsOk(ids, m.shortIds, txnAvailable) && |ids| == |m.shortIds|
    {
      hide Free, Mapped, Distinct, IdsOk;
      ids := map[];
      var offset := 0;
      var i := 0;
      MapStart(m.shortIds, txnAvailable);
      while i < |m.shortIds|
        invariant 0 <= i <= |m.shortIds| && 0 <= offset && i + offset <= |txnAvailable|
        invariant |Free(txnAvailable[..i + offset])| == i
        invariant Mapped(ids, m.shortIds, i, txnAvailable)
        invariant forall j :: 0 <= j < i ==> !crowded(j)
      {
        offset := NextFree(i, offset);
        assert i + offset <= 0xFFFF;
        MapNext(ids, m.shortIds, i, txnAvailable, i + offset);
        ids := ids[m.shortIds[i] := i + offset];
        if crowded(i) {
          return ids, false;
        }
        i := i + 1;
      }
      MapEnd(ids, m.shortIds, txnAvailable);
      if |ids| != |m.shortIds| {
        return ids, false;
      }
      return ids, true;
    }

    /** Moves the offset past filled slots. */
    method NextFree(i: nat, from: nat) returns (offset: nat)
      requires i + from <= |txnAvailable| && |Free(txnAvailable[..i + from])| == i < |Free(txnAvailable)|
      ensures i + offset < |txnAvailable| && txnAvailable[i + offset] == None
      ensures |Free(txnAvailable[..i + offset])| == i
    {
      hide Free;
      offset := from;
      assert txnAvailable[..|txnAvailable|] == txnAvailable;
      while txnAvailable[i + offset] != None
        invariant from <= offset && i + offset < |txnAvailable|
        invariant |Free(txnAvailable[..i + offset])| == i
        decreases |txnAvailable| - offset
      {
        FreeNext(txnAvailable, i + offset);
        offset := offset + 1;
      }
    }

    /** One candidate for the slot of its short id, if it has one. */
    method Offer(ids: map<int, nat>, have: seq<bool>, id: int, tx: Tx, extra: bool,
                 ghost short: seq<int>, ghost base: Slots, ghost found: map<int, Match>)
      returns (have': seq<bool>, ghost found': map<int, Match>)
      requires Reflects(txnAvailable, have, ids, short, base, found)
      requires mempoolCount + |Free(txnAvailable)| == |short|
      modifies `txnAvailable, `mempoolCount
      ensures Reflects(txnAvailable, have', ids, short, base, found')
      ensures mempoolCount + |Free(txnAvailable)| == |short|
      ensures found'.Keys == found.Keys
      ensures forall x :: x in found ==> found'[x] == if x == id then Step(found[x], tx, extra) else found[x]
    {
      hide Free, Distinct;
      have', found' := have, found;
      if id in ids {
        var p := ids[id];
        SlotsApart(ids, short, base, id, id);
        found' := found[id := Step(found[id], tx, extra)];
        ReflectsNext(txnAvailable, have, ids, short, base, found, id, found'[id]);
        if !have[p] {
          FreeFill(txnAvailable, p, tx);
          txnAvailable := txnAvailable[p := Some(tx)];
          have' := have[p := true];
          mempoolCount := mempoolCount + 1;
        } else {
          assert have[p := true] == have;
          if txnAvailable[p] != None && !(extra && txnAvailable[p].value.witnessHash == tx.witnessHash) {
            ghost var u, s' := txnAvailable[p].value, txnAvailable[p := None];
            assert s'[p := Some(u)] == txnAvailable;
            FreeFill(s', p, u);
            FreeFewer(s', base);
            txnAvailable := txnAvailable[p := None];
            mempoolCount := mempoolCount - 1;
          } else {
            assert txnAvailable[p := Shown(found'[id])] == txnAvailable;
          }
        }
      }
    }

    /** Offers every entry of a list, until all slots are filled. */
    method Scan(list: seq<Entry>, extra: bool, sid: int -> int, ids: map<int, nat>, have: seq<bool>,
                ghost short: seq<int>, ghost base: Slots, ghost found: map<int, Match>)
      returns (have': seq<bool>, ghost found': map<int, Match>, ghost k: nat)
      requires |ids| == |short|
      requires Reflects(txnAvailable, have, ids, short, base, found)
      requires mempoolCount + |Free(txnAvailable)| == |short|
      modifies `txnAvailable, `mempoolCount
      ensures Reflects(txnAvailable, have', ids, short, base, found')
      ensures mempoolCount + |Free(txnAvailable)| == |short|
      ensures k <= |list| && StopsAt(found, list, k, sid, extra)
      ensures found'.Keys == found.Keys
      ensures forall x :: x in found ==> found'[x] == MatchOf(found[x], list[..k], sid, x, extra)
    {
      hide Free, Reflects, MatchOf;
      have', found', k := have, found, 0;
      forall x | x in found
        ensures found'[x] == MatchOf(found[x], list[..0], sid, x, extra)
      {
        MatchStart(found[x], list, sid, x, extra);
      }
      var i := 0;
      while i < |list|
        invariant 0 <= i <= |list| && k == i
        invariant Reflects(txnAvailable, have', ids, short, base, found')
        invariant mempoolCount + |Free(txnAvailable)| == |short|
        invariant found'.Keys == found.Keys
        invariant forall x :: x in found ==> found'[x] == MatchOf(found[x], list[..i], sid, x, extra)
        invariant forall j :: 1 <= j <= i ==> !AllHeld(found, list, j, sid, extra)
      {
        have', found' := Offer(ids, have', sid(list[i].hash), list[i].tx, extra, short, base, found');
        forall x | x in found
          ensures found'[x] == MatchOf(found[x], list[..i + 1], sid, x, extra)
        {
          MatchNext(found[x], list, i, sid, x, extra);
        }
        i := i + 1;
        k := i;
        FreeIffHeld(txnAvailable, have', ids, short, base, found');
        if mempoolCount == |ids| {
          break;
        }
      }
    }

    /**
    InitData.  On success: base is the block with only the prefilled transactions, k pool entries and n extra ones
    were looked at, and every other slot holds what those entries amount to for its short id.
    */
    method InitData(m: Message, sid: int -> int, crowded: nat -> bool, pool: seq<Entry>, extra: seq<Entry>)
      returns (status: ReadStatus, ghost base: Slots, ghost k: nat, ghost n: nat)
      requires headerNull && txnAvailable == [] && mempoolCount == 0
      requires m.BlockTxCount() <= 0xFFFF
      modifies this
      ensures status == INVALID <==> Malformed(m)
      ensures status == FAILED <==>
        !Malformed(m) && !(Distinct(m.shortIds) && forall i :: 0 <= i < |m.shortIds| ==> !crowded(i))
      ensures status == INVALID || status == FAILED || status == OK
      ensures status == OK ==>
        && !headerNull && mweb == m.mweb && prefilledCount == |m.prefilled|
        && Placed(base, m, |m.prefilled|) && |Free(base)| == |m.shortIds|
        && k <= |pool| && n <= |extra|
        && Resolved(txnAvailable, m, base, pool, k, extra, n, sid)
        && StopsWhenFull(m.shortIds, pool, k, extra, n, sid)
        && mempoolCount + |Free(txnAvailable)| == |m.shortIds|
    {
      hide Free, Placed, Distinct, Resolved, PrefilledOk, IdsOk;
      base, k, n := [], 0, 0;
      if m.headerNull || (m.shortIds == [] && m.prefilled == []) {
        return INVALID, base, k, n;
      }
      if |m.shortIds| + |m.prefilled| > MAX_TXS {
        return INVALID, base, k, n;
      }
      headerNull := false;
      mweb := m.mweb;
      txnAvailable := Blank(m.BlockTxCount());
      var ok := PlacePrefilled(m);
      if !ok {
        return INVALID, base, k, n;
      }
      prefilledCount := |m.prefilled|;
      base := txnAvailable;
      PlacedFree(base, m);
      var ids, unique := MapShortIds(m, crowded);
      if !unique {
        return FAILED, base, k, n;
      }
      k, n := Resolve(m, sid, ids, pool, extra);
      return OK, base, k, n;
    }

    /** The second half of InitData: looks for the named transactions in the pool and the extra list. */
    method Resolve(m: Message, sid: int -> int, ids: map<int, nat>, pool: seq<Entry>, extra: seq<Entry>)
      returns (ghost k: nat, ghost n: nat)
      requires IdsOk(ids, m.shortIds, txnAvailable) && Distinct(m.shortIds) && |ids| == |m.shortIds|
      requires mempoolCount == 0
      modifies `txnAvailable, `mempoolCount
      ensures k <= |pool| && n <= |extra|
      ensures Resolved(txnAvailable, m, old(txnAvailable), pool, k, extra, n, sid)
      ensures StopsWhenFull(m.shortIds, pool, k, extra, n, sid)
      ensures mempoolCount + |Free(txnAvailable)| == |m.shortIds|
    {
      hide Free, Distinct, Reflects, MatchOf, Resolved, StopsAt, StopsWhenFull;
      ghost var base := txnAvailable;
      var have := seq(|txnAvailable|, _ => false);
      ghost var found := map id | id in ids :: Nothing;
      ReflectsStart(have, ids, m.shortIds, base, found);
      ghost var none := found;
      have, found, k := Scan(pool, false, sid, ids, have, m.shortIds, base, found);
      ghost var inPool := found;
      have, found, n := Scan(extra, true, sid, ids, have, m.shortIds, base, found);
      StopsBoth(m.shortIds, ids, base, none, inPool, pool, k, extra, n, sid);
      ResolvedBy(txnAvailable, have, ids, m, base, found, pool, k, extra, n, sid);
    }

    /** FillBlock; check stands for CheckBlock. */
    method FillBlock(missing: seq<Tx>, check: seq<Tx> -> CheckResult) returns (status: ReadStatus, vtx: seq<Tx>)
      requires !headerNull
      modifies this
      ensures status == INVALID <==> |missing| != |Free(old(txnAvailable))|
      ensures |missing| == |Free(old(txnAvailable))| ==>
        && vtx == Filled(old(txnAvailable), missing)
        && status == Outcome(check(vtx))
      ensures |missing| >= |Free(old(txnAvailable))| ==> headerNull && txnAvailable == []
    {
      hide Free, Filled;
      ghost var s := txnAvailable;
      vtx := [];
      var offset := 0;
      var i := 0;
      FilledStart(s, missing);
      while i < |txnAvailable|
        invariant 0 <= i <= |txnAvailable| == |s|
        invariant forall p :: i <= p < |s| ==> txnAvailable[p] == s[p]
        invariant offset == |Free(s[..i])| <= |missing| && vtx == Filled(s[..i], missing)
      {
        FreeNext(s, i);
        FreePrefix(s, i + 1);
        if txnAvailable[i] == None {
          if |missing| <= offset {
            return INVALID, vtx;
          }
          FilledNext(s, i, missing);
          vtx := vtx + [missing[offset]];
          offset := offset + 1;
        } else {
          FilledNext(s, i, missing);
          vtx := vtx + [txnAvailable[i].value];
          txnAvailable := txnAvailable[i := None];
        }
        i := i + 1;
      }
      assert s[..i] == s;
      headerNull := true;
      txnAvailable := [];
      if |missing| != offset {
        return INVALID, vtx;
      }
      match check(vtx) {
        case Passes => return OK, vtx;
        case Mutated => return FAILED, vtx;
        case Fails => return CHECKBLOCK_FAILED, vtx;
      }
    }
  }

  datatype CheckResult = Passes | Mutated | Fails

  function Outcome(c: CheckResult): ReadStatus {
    match c
    case Passes => OK
    case Mutated => FAILED
    case Fails => CHECKBLOCK_FAILED
  }

  /** The slots, with the missing transactions in order in the empty ones. */
  ghost function Filled(s: Slots, missing: seq<Tx>): (v: seq<Tx>)
    requires |Free(s)| <= |missing|
    ensures |v| == |s|
  {
    if s == [] then []
    else
      var t := s[..|s| - 1];
      Filled(t, missing) + [if s[|s| - 1] == None then missing[|Free(t)|] else s[|s| - 1].value]
  }

  lemma FilledStart(s: Slots, missing: seq<Tx>)
    ensures Free(s[..0]) == [] && Filled(s[..0], missing) == []
  {}

  lemma FilledNext(s: Slots, i: nat, missing: seq<Tx>)
    requires i < |s| && |Free(s[..i + 1])| <= |missing|
    ensures |Free(s[..i])| <= |Free(s[..i + 1])|
    ensures s[i] == None ==> |Free(s[..i])| < |missing|
    ensures Filled(s[..i + 1], missing) ==
      Filled(s[..i], missing) + [if s[i] == None then missing[|Free(s[..i])|] else s[i].value]
  {
    var t := s[..i + 1];
    assert t[..|t| - 1] == s[..i];
  }

  /** Slots that agree with a block, completed with the block's own transactions, give the block. */
  lemma {:induction false} FilledRebuilds(s: Slots, block: seq<Tx>, missing: seq<Tx>)
    requires |s| == |block| && forall p :: 0 <= p < |s| && s[p] != None ==> s[p] == Some(block[p])
    requires |missing| >= |Free(s)| && forall i :: 0 <= i < |Free(s)| ==> missing[i] == block[Free(s)[i]]
    ensures Filled(s, missing) == block
  {
    if s != [] {
      var n := |s| - 1;
      FreePrefix(s, n);
      FilledRebuilds(s[..n], block[..n], missing);
      assert block == block[..n] + [block[n]];
    }
  }

  /** Every slot that was not prefilled holds what the entries looked at amount to for its short id. */
  ghost predicate Resolved(s: Slots, m: Message, base: Slots, pool: seq<Entry>, k: nat, extra: seq<Entry>, n: nat,
                           sid: int -> int)
    requires k <= |pool| && n <= |extra|
  {
    && |s| == |base| && |Free(base)| == |m.shortIds|
    && (forall p :: 0 <= p < |s| && base[p] != None ==> s[p] == base[p])
    && (forall i :: 0 <= i < |m.shortIds| ==>
         s[Free(base)[i]] == Shown(FoundIn(pool, k, extra, n, sid, m.shortIds[i])))
  }

  lemma ResolvedBy(s: Slots, have: seq<bool>, ids: map<int, nat>, m: Message, base: Slots, found: map<int, Match>,
                   pool: seq<Entry>, k: nat, extra: seq<Entry>, n: nat, sid: int -> int)
    requires Reflects(s, have, ids, m.shortIds, base, found) && k <= |pool| && n <= |extra|
    requires forall x :: x in found ==> found[x] == FoundIn(pool, k, extra, n, sid, x)
    ensures Resolved(s, m, base, pool, k, extra, n, sid)
  {
    hide Free, FoundIn;
  }

  /** Every short id has found its transaction after j entries of a list. */
  ghost predicate AllHeld(start: map<int, Match>, list: seq<Entry>, j: nat, sid: int -> int, extra: bool)
    requires j <= |list|
  {
    forall x :: x in start ==> MatchOf(start[x], list[..j], sid, x, extra).Held?
  }

  /** The scan of a list ends at its end, or after the first entry that leaves no slot empty. */
  ghost predicate StopsAt(start: map<int, Match>, list: seq<Entry>, k: nat, sid: int -> int, extra: bool) {
    && k <= |list|
    && (k < |list| ==> k >= 1 && AllHeld(start, list, k, sid, extra))
    && (forall j :: 1 <= j < k ==> !AllHeld(start, list, j, sid, extra))
  }

  /** Every short id has found its transaction after k entries of the pool and n extra ones. */
  ghost predicate Full(short: seq<int>, pool: seq<Entry>, k: nat, extra: seq<Entry>, n: nat, sid: int -> int)
    requires k <= |pool| && n <= |extra|
  {
    forall i :: 0 <= i < |short| ==> FoundIn(pool, k, extra, n, sid, short[i]).Held?
  }

  /** Which entries the two scans look at. */
  ghost predicate StopsWhenFull(short: seq<int>, pool: seq<Entry>, k: nat, extra: seq<Entry>, n: nat, sid: int -> int) {
    && k <= |pool| && n <= |extra|
    && (k < |pool| ==> k >= 1 && Full(short, pool, k, extra, 0, sid))
    && (forall j :: 1 <= j < k ==> !Full(short, pool, j, extra, 0, sid))
    && (n < |extra| ==> n >= 1 && Full(short, pool, k, extra, n, sid))
    && (forall j :: 1 <= j < n ==> !Full(short, pool, k, extra, j, sid))
  }

  lemma StopsBoth(short: seq<int>, ids: map<int, nat>, base: Slots, none: map<int, Match>, inPool: map<int, Match>,
                  pool: seq<Entry>, k: nat, extra: seq<Entry>, n: nat, sid: int -> int)
    requires IdsOk(ids, short, base) && none.Keys == inPool.Keys == ids.Keys
    requires forall x :: x in none ==> none[x] == Nothing
    requires StopsAt(none, pool, k, sid, false) && StopsAt(inPool, extra, n, sid, true)
    requires forall x :: x in inPool ==> inPool[x] == MatchOf(none[x], pool[..k], sid, x, false)
    ensures StopsWhenFull(short, pool, k, extra, n, sid)
  {
    hide Free, MatchOf;
    forall j | 0 <= j <= |pool|
      ensures Full(short, pool, j, extra, 0, sid) <==> AllHeld(none, pool, j, sid, false)
    {
      FullPool(short, ids, base, none, pool, j, extra, sid);
    }
    forall j | 0 <= j <= |extra|
      ensures Full(short, pool, k, extra, j, sid) <==> AllHeld(inPool, extra, j, sid, true)
    {
      FullExtra(short, ids, base, inPool, pool, k, extra, j, sid);
    }
  }

  lemma FullPool(short: seq<int>, ids: map<int, nat>, base: Slots, none: map<int, Match>, pool: seq<Entry>, j: nat,
                 extra: seq<Entry>, sid: int -> int)
    requires IdsOk(ids, short, base) && none.Keys == ids.Keys && j <= |pool|
    requires forall x :: x in none ==> none[x] == Nothing
    ensures Full(short, pool, j, extra, 0, sid) <==> AllHeld(none, pool, j, sid, false)
  {
    hide Free, MatchOf;
    forall x | x in none
      ensures FoundIn(pool, j, extra, 0, sid, x) == MatchOf(none[x], pool[..j], sid, x, false)
    {
      MatchStart(MatchOf(Nothing, pool[..j], sid, x, false), extra, sid, x, true);
    }
    FullKeys(short, ids, base, x => FoundIn(pool, j, extra, 0, sid, x).Held?);
  }

  lemma FullExtra(short: seq<int>, ids: map<int, nat>, base: Slots, inPool: map<int, Match>, pool: seq<Entry>, k: nat,
                  extra: seq<Entry>, j: nat, sid: int -> int)
    requires IdsOk(ids, short, base) && inPool.Keys == ids.Keys && k <= |pool| && j <= |extra|
    requires forall x :: x in inPool ==> inPool[x] == MatchOf(Nothing, pool[..k], sid, x, false)
    ensures Full(short, pool, k, extra, j, sid) <==> AllHeld(inPool, extra, j, sid, true)
  {
    hide Free, MatchOf;
    FullKeys(short, ids, base, x => FoundIn(pool, k, extra, j, sid, x).Held?);
  }

  /** The short ids of the message are the keys of the map. */
  lemma FullKeys(short: seq<int>, ids: map<int, nat>, base: Slots, p: int -> bool)
    requires IdsOk(ids, short, base)
    ensures (forall i :: 0 <= i < |short| ==> p(short[i])) <==> (forall x :: x in ids ==> p(x))
  {
    hide Free;
    if forall i :: 0 <= i < |short| ==> p(short[i]) {
      forall x | x in ids
        ensures p(x)
      {
        var i :| 0 <= i < |short| && short[i] == x;
      }
    }
    if forall x :: x in ids ==> p(x) {
      forall i | 0 <= i < |short|
        ensures p(short[i])
      {
        assert short[i] in ids;
      }
    }
  }

  /** No slot is empty exactly if every short id has found its transaction. */
  lemma FreeIffHeld(s: Slots, have: seq<bool>, ids: map<int, nat>, short: seq<int>, base: Slots, found: map<int, Match>)
    requires Reflects(s, have, ids, short, base, found)
    ensures |Free(s)| == 0 <==> forall x :: x in found ==> found[x].Held?
  {
    hide Free;
    if |Free(s)| > 0 {
      var p := Free(s)[0];
      assert base[p] == None && p in Free(base);
      var i :| 0 <= i < |Free(base)| && Free(base)[i] == p;
      assert short[i] in found && ids[short[i]] == p;
    } else {
      forall x | x in found
        ensures found[x].Held?
      {
        SlotsApart(ids, short, base, x, x);
      }
    }
  }

  lemma ReflectsStart(have: seq<bool>, ids: map<int, nat>, short: seq<int>, base: Slots, found: map<int, Match>)
    requires |have| == |base| && IdsOk(ids, short, base) && Distinct(short)
    requires (forall i :: 0 <= i < |have| ==> !have[i]) && found.Keys == ids.Keys
    requires forall id :: id in found ==> found[id] == Nothing
    ensures Reflects(base, have, ids, short, base, found)
  {
    hide Free;
    forall id | id in ids
      ensures ids[id] < |base| && base[ids[id]] == None
    {
      SlotsApart(ids, short, base, id, id);
    }
  }

  lemma MatchStart(start: Match, list: seq<Entry>, sid: int -> int, id: int, extra: bool)
    ensures MatchOf(start, list[..0], sid, id, extra) == start
  {}

  lemma MatchNext(start: Match, list: seq<Entry>, i: nat, sid: int -> int, id: int, extra: bool)
    requires i < |list|
    ensures
      var y := MatchOf(start, list[..i], sid, id, extra);
      MatchOf(start, list[..i + 1], sid, id, extra) ==
        if sid(list[i].hash) == id then Step(y, list[i].tx, extra) else y
  {
    var t := list[..i + 1];
    assert t[..|t| - 1] == list[..i];
  }

  lemma PlacedFree(base: Slots, m: Message)
    requires Placed(base, m, |m.prefilled|)
    ensures |Free(base)| == |m.shortIds| && |base| == m.BlockTxCount()
  {}

  lemma PlaceStart(m: Message)
    ensures Placed(Blank(m.BlockTxCount()), m, 0) && Position(m.prefilled, -1) == -1
  {
    hide Free;
    FreeBlank(m.BlockTxCount());
  }

  lemma PositionNext(pre: seq<Prefilled>, i: nat)
    requires i < |pre|
    ensures Position(pre, i) == Position(pre, i - 1) + pre[i].index + 1
  {}

  /** The first i short ids are mapped; if they are distinct, to the first i empty slots. */
  ghost predicate Mapped(ids: map<int, nat>, short: seq<int>, i: nat, s: Slots) {
    && i <= |short| == |Free(s)|
    && Counted(ids, short[..i])
    && (Distinct(short[..i]) ==> forall j :: 0 <= j < i ==> short[j] in ids && ids[short[j]] == Free(s)[j])
  }

  lemma MapStart(short: seq<int>, s: Slots)
    requires |short| == |Free(s)|
    ensures Mapped(map[], short, 0, s) && Free(s[..0]) == []
  {
    assert short[..0] == [];
  }

  lemma MapNext(ids: map<int, nat>, short: seq<int>, i: nat, s: Slots, p: nat)
    requires i < |short| && Mapped(ids, short, i, s) && p < |s| && s[p] == None && |Free(s[..p])| == i
    ensures Mapped(ids[short[i] := p], short, i + 1, s) && |Free(s[..p + 1])| == i + 1
  {
    hide Free, Counted, Distinct;
    CountNext(ids, short[..i], short[i], p);
    assert short[..i] + [short[i]] == short[..i + 1];
    DistinctNext(short, i);
    FreeNext(s, p);
    FreePrefix(s, p + 1);
    assert Free(s)[i] == p;
    var ids' := ids[short[i] := p];
    if Distinct(short[..i + 1]) {
      forall j | 0 <= j < i + 1 ensures short[j] in ids' && ids'[short[j]] == Free(s)[j] {
        assert j < i ==> short[j] != short[i];
      }
    }
  }

  lemma MapEnd(ids: map<int, nat>, short: seq<int>, s: Slots)
    requires Mapped(ids, short, |short|, s)
    ensures |ids| == |short| <==> Distinct(short)
    ensures Distinct(short) ==> IdsOk(ids, short, s)
  {
    hide Free;
    assert short[..|short|] == short;
  }

  /** Longer lists of distinct ids, and ids seen before. */
  lemma DistinctNext(short: seq<int>, i: nat)
    requires i < |short|
    ensures Distinct(short[..i + 1]) ==> Distinct(short[..i]) && forall j :: 0 <= j < i ==> short[j] != short[i]
  {
    if Distinct(short[..i + 1]) {
      var s := short[..i + 1];
      assert s[i] == short[i];
      assert forall j :: 0 <= j < i ==> s[j] == short[j] == short[..i][j];
    }
  }

  // ------------------------------------------------------------------ building a message

  function HashOf(tx: Tx, useWitness: bool): int { if useWitness then tx.witnessHash else tx.hash }

  /** The short ids of the transactions from the second on, without the HogEx. */
  ghost function ShortIdsOf(block: seq<Tx>, i: nat, useWitness: bool, sid: int -> int): (s: seq<int>)
    requires i <= |block|
  {
    if i <= 1 then []
    else if block[i - 1].hogEx then ShortIdsOf(block, i - 1, useWitness, sid)
    else ShortIdsOf(block, i - 1, useWitness, sid) + [sid(HashOf(block[i - 1], useWitness))]
  }

  function PrefilledOf(block: seq<Tx>, mweb: bool): (pre: seq<Prefilled>)
    requires block != []
  {
    [Prefilled(0, block[0])] + if mweb then [Prefilled((|block| - 2) % 0x1_0000, block[|block| - 1])] else []
  }

  /** The constructor of CBlockHeaderAndShortTxIDs, for a block with a header. */
  method BuildMessage(block: seq<Tx>, mweb: bool, useWitness: bool, sid: int -> int) returns (m: Message)
    requires block != []
    ensures m == Message(false, mweb, ShortIdsOf(block, |block|, useWitness, sid), PrefilledOf(block, mweb))
  {
    var prefilled := [Prefilled(0, block[0])];
    if mweb {
      prefilled := prefilled + [Prefilled((|block| - 2) % 0x1_0000, block[|block| - 1])];
    }
    var shortIds := [];
    var i := 1;
    while i < |block|
      invariant 1 <= i <= |block|
      invariant shortIds == ShortIdsOf(block, i, useWitness, sid)
    {
      if !block[i].hogEx {
        shortIds := shortIds + [sid(HashOf(block[i], useWitness))];
      }
      i := i + 1;
    }
    return Message(false, mweb, shortIds, prefilled);
  }

  /** A HogEx is the last transaction, exactly if there is an MWEB block. */
  ghost predicate Proper(block: seq<Tx>, mweb: bool) {
    && 1 <= |block| <= 0xFFFF && (mweb ==> |block| >= 2)
    && (forall i :: 1 <= i < |block| ==> (block[i].hogEx <==> mweb && i == |block| - 1))
    && (forall i :: 0 <= i < |block| ==> !block[i].isNull)
  }

  /** How many transactions of a proper block go by short id. */
  function Named(block: seq<Tx>, mweb: bool): int { if mweb then |block| - 2 else |block| - 1 }

  lemma {:induction false} ShortIdsAre(block: seq<Tx>, mweb: bool, i: nat, useWitness: bool, sid: int -> int)
    requires Proper(block, mweb) && 1 <= i <= Named(block, mweb) + 1
    ensures
      var s := ShortIdsOf(block, i, useWitness, sid);
      |s| == i - 1 && forall j :: 0 <= j < i - 1 ==> s[j] == sid(HashOf(block[j + 1], useWitness))
  {
    if i > 1 { ShortIdsAre(block, mweb, i - 1, useWitness, sid); }
  }

  /** The message of a proper block is well formed and counts its transactions. */
  lemma MessageFits(block: seq<Tx>, mweb: bool, useWitness: bool, sid: int -> int)
    requires Proper(block, mweb)
    ensures
      var m := Message(false, mweb, ShortIdsOf(block, |block|, useWitness, sid), PrefilledOf(block, mweb));
      && m.BlockTxCount() == |block| && |m.shortIds| == Named(block, mweb)
      && (forall j :: 0 <= j < |m.shortIds| ==> m.shortIds[j] == sid(HashOf(block[j + 1], useWitness)))
      && !Malformed(m)
      && Position(m.prefilled, 0) == 0
      && (mweb ==> Position(m.prefilled, 1) == |block| - 1)
  {
    var n := Named(block, mweb);
    ShortIdsAre(block, mweb, n + 1, useWitness, sid);
    var m := Message(false, mweb, ShortIdsOf(block, |block|, useWitness, sid), PrefilledOf(block, mweb));
    var pre := m.prefilled;
    PositionNext(pre, 0);
    assert Position(pre, -1) == -1;
    if mweb {
      PositionNext(pre, 1);
      assert (|block| - 2) % 0x1_0000 == |block| - 2;
    }
  }

  lemma {:induction false} FreeRange(s: Slots, n: nat)
    requires |s| > n && s[0] != None
    requires forall p :: 1 <= p < |s| ==> (s[p] == None <==> p <= n)
    ensures |Free(s)| == n && forall i :: 0 <= i < n ==> Free(s)[i] == i + 1
  {
    var k := |s| - 1;
    if k > 0 {
      FreeRange(s[..k], if n < k then n else n - 1);
    }
  }

  /** The slots of a proper block's message: prefilled ones are right, and short id i stands for transaction i + 1. */
  lemma MessagePlaces(block: seq<Tx>, mweb: bool, useWitness: bool, sid: int -> int, m: Message, base: Slots)
    requires Proper(block, mweb)
    requires m == Message(false, mweb, ShortIdsOf(block, |block|, useWitness, sid), PrefilledOf(block, mweb))
    requires Placed(base, m, |m.prefilled|)
    ensures |base| == |block|
    ensures forall p :: 0 <= p < |base| && base[p] != None ==> base[p] == Some(block[p])
    ensures |Free(base)| == |m.shortIds| && forall i :: 0 <= i < |m.shortIds| ==>
      Free(base)[i] == i + 1 && m.shortIds[i] == sid(HashOf(block[i + 1], useWitness))
  {
    hide Free, Position, ShortIdsOf;
    MessageFits(block, mweb, useWitness, sid);
    forall p | 0 <= p < |base|
      ensures base[p] == None <==> 1 <= p <= Named(block, mweb)
      ensures base[p] != None ==> base[p] == Some(block[p])
    {
      if base[p] != None {
        var i :| 0 <= i < |m.prefilled| && Position(m.prefilled, i) == p;
      }
    }
    FreeRange(base, Named(block, mweb));
  }

  // ------------------------------------------------------------------ the whole transfer

  /** Entries that share a short id with a transaction of the block are that transaction. */
  ghost predicate Faithful(list: seq<Entry>, block: seq<Tx>, useWitness: bool, sid: int -> int) {
    forall j, i :: 0 <= j < |list| && 1 <= i < |block| && sid(list[j].hash) == sid(HashOf(block[i], useWitness)) ==>
      list[j].tx == block[i]
  }

  /** A held transaction is one of the candidates. */
  lemma {:induction false} HeldIsRight(start: Match, list: seq<Entry>, sid: int -> int, id: int, extra: bool, tx: Tx)
    requires start.Held? ==> start.tx == tx
    requires forall j :: 0 <= j < |list| && sid(list[j].hash) == id ==> list[j].tx == tx
    ensures MatchOf(start, list, sid, id, extra).Held? ==> MatchOf(start, list, sid, id, extra).tx == tx
  {
    if list != [] { HeldIsRight(start, list[..|list| - 1], sid, id, extra, tx); }
  }

  lemma ResolvedRight(s: Slots, m: Message, base: Slots, pool: seq<Entry>, k: nat, extra: seq<Entry>, n: nat,
                      sid: int -> int, block: seq<Tx>, mweb: bool, useWitness: bool)
    requires Proper(block, mweb)
    requires m == Message(false, mweb, ShortIdsOf(block, |block|, useWitness, sid), PrefilledOf(block, mweb))
    requires Placed(base, m, |m.prefilled|) && k <= |pool| && n <= |extra|
    requires Resolved(s, m, base, pool, k, extra, n, sid)
    requires Faithful(pool, block, useWitness, sid) && Faithful(extra, block, useWitness, sid)
    ensures |s| == |block| && forall p :: 0 <= p < |s| && s[p] != None ==> s[p] == Some(block[p])
  {
    hide Free, Placed, ShortIdsOf, MatchOf, Proper, Faithful, FoundIn, Shown;
    MessagePlaces(block, mweb, useWitness, sid, m, base);
    forall p | 0 <= p < |s| && s[p] != None
      ensures s[p] == Some(block[p])
    {
      if base[p] == None {
        var i :| 0 <= i < |Free(base)| && Free(base)[i] == p;
        FoundIsRight(pool, k, extra, n, sid, block, useWitness, p);
      }
    }
  }

  /** What faithful lists hold for a transaction of the block is that transaction. */
  lemma FoundIsRight(pool: seq<Entry>, k: nat, extra: seq<Entry>, n: nat, sid: int -> int, block: seq<Tx>,
                     useWitness: bool, p: nat)
    requires k <= |pool| && n <= |extra| && 1 <= p < |block|
    requires Faithful(pool, block, useWitness, sid) && Faithful(extra, block, useWitness, sid)
    ensures var id := sid(HashOf(block[p], useWitness));
            var shown := Shown(FoundIn(pool, k, extra, n, sid, id)); shown == None || shown == Some(block[p])
  {
    hide MatchOf, HashOf;
    var id := sid(HashOf(block[p], useWitness));
    var first := MatchOf(Nothing, pool[..k], sid, id, false);
    HeldIsRight(Nothing, pool[..k], sid, id, false, block[p]);
    HeldIsRight(first, extra[..n], sid, id, true, block[p]);
  }

  /** The transactions of the block that the receiver still lacks, in order. */
  ghost predicate Answers(missing: seq<Tx>, s: Slots, block: seq<Tx>) {
    |missing| == |Free(s)| && |s| == |block| && forall i :: 0 <= i < |Free(s)| ==> missing[i] == block[Free(s)[i]]
  }

  /** The sender's answer to a request for the empty slots. */
  method Request(s: Slots, block: seq<Tx>) returns (missing: seq<Tx>)
    requires |s| == |block|
    ensures Answers(missing, s, block)
  {
    hide Free;
    missing := [];
    FilledStart(s, []);
    var i := 0;
    while i < |s|
      invariant 0 <= i <= |s| && |missing| == |Free(s[..i])|
      invariant forall j :: 0 <= j < |missing| ==> missing[j] == block[Free(s[..i])[j]]
    {
      FreeNext(s, i);
      if s[i] == None {
        missing := missing + [block[i]];
      }
      i := i + 1;
    }
    assert s[..i] == s;
  }

  /**
  From a block to its message and back: if the receiver's entries are faithful, the short ids distinct and the
  hash table not crowded, the receiver rebuilds the block.
  */
  method Transfer(block: seq<Tx>, mweb: bool, useWitness: bool, sid: int -> int, crowded: nat -> bool,
                  pool: seq<Entry>, extra: seq<Entry>, check: seq<Tx> -> CheckResult)
    returns (status: ReadStatus, vtx: seq<Tx>)
    requires Proper(block, mweb)
    requires Faithful(pool, block, useWitness, sid) && Faithful(extra, block, useWitness, sid)
    ensures status != INVALID
    ensures Distinct(ShortIdsOf(block, |block|, useWitness, sid)) && (forall i :: 0 <= i < |block| ==> !crowded(i)) ==>
      vtx == block && status == Outcome(check(block))
  {
    hide Free, Placed, Filled, Distinct, ShortIdsOf, Malformed, Resolved, Faithful;
    var m := BuildMessage(block, mweb, useWitness, sid);
    MessageFits(block, mweb, useWitness, sid);
    var partial := new PartiallyDownloadedBlock(mweb);
    ghost var base, k, n;
    status, base, k, n := partial.InitData(m, sid, crowded, pool, extra);
    if status != OK {
      return status, [];
    }
    ResolvedRight(partial.txnAvailable, m, base, pool, k, extra, n, sid, block, mweb, useWitness);
    var missing := Request(partial.txnAvailable, block);
    FilledRebuilds(partial.txnAvailable, block, missing);
    status, vtx := partial.FillBlock(missing, check);
  }
}
