/**
The layered UTXO cache of src/coins.h and src/coins.cpp.

A `CoinsViewCache` is a write-back cache over another view, which is either a
database or a further cache.  Every entry carries a DIRTY and a FRESH flag that
let later operations skip work.  `Coins()` is what a reader of the view can
see: a plain map from outpoints to unspent coins.
*/
module Coins {
  import opened Common

  newtype byte = x: int | 0 <= x < 256

  datatype OutPoint = OutPoint(hash: nat, n: nat)

  datatype TxOut = TxOut(value: int, script: seq<byte>)

  datatype Coin = Coin(out: TxOut, height: nat, coinbase: bool, pegout: bool)
  {
    predicate IsSpent() { out.value == -1 }

    /** Heap bytes of the script: short scripts are stored inline, longer ones in one malloc block. */
    function DynamicMemoryUsage(): nat {
      if |out.script| <= 28 then 0 else (|out.script| + 31) / 16 * 16
    }
  }

  /** A coin after Coin::Clear. */
  const NULL_COIN := Coin(TxOut(-1, []), 0, false, false)

  const OP_RETURN: byte := 0x6a
  const MAX_SCRIPT_SIZE := 10000

  predicate IsUnspendable(script: seq<byte>) {
    (|script| > 0 && script[0] == OP_RETURN) || |script| > MAX_SCRIPT_SIZE
  }

  /** The plain specification of a view: its unspent coins. */
  type Utxo = map<OutPoint, Coin>

  predicate AllUnspent(view: Utxo) {
    forall k :: k in view ==> !view[k].IsSpent()
  }

  datatype CacheEntry = CacheEntry(coin: Coin, isDirty: bool, isFresh: bool)
  {
    function Seen(): Option<Coin> {
      if coin.IsSpent() then None else Some(coin)
    }

    /** The five legal combinations listed in src/coins.h:130-135. */
    predicate LegalFlags() {
      if coin.IsSpent() then coin == NULL_COIN && isFresh != isDirty else isFresh ==> isDirty
    }

    /** What the flags promise about the parent view, which shows `below` for this outpoint. */
    predicate Coherent(below: Option<Coin>) {
      && LegalFlags()
      && (isFresh ==> below.None?)
      && (!isDirty ==> Seen() == below)
    }
  }

  type CoinsMap = map<OutPoint, CacheEntry>

  function Lookup<K, V>(m: map<K, V>, k: K): Option<V> {
    if k in m then Some(m[k]) else None
  }

  function Without<K, V>(m: map<K, V>, k: K): (r: map<K, V>)
    requires k in m
    ensures r.Keys == m.Keys - {k} && |r| < |m|
    ensures forall j :: j in r ==> r[j] == m[j]
  {
    assert (m - {k}).Keys == m.Keys - {k};
    m - {k}
  }

  ghost predicate CoherentMap(entries: CoinsMap, below: Utxo) {
    forall k :: k in entries ==> entries[k].Coherent(Lookup(below, k))
  }

  /** The map seen through `entries` laid over `below`. */
  ghost function Overlay(entries: CoinsMap, below: Utxo): (view: Utxo) {
    map k | k in below.Keys + entries.Keys && (k in entries ==> !entries[k].coin.IsSpent())
      :: if k in entries then entries[k].coin else below[k]
  }

  lemma OverlayLookup(entries: CoinsMap, below: Utxo, k: OutPoint)
    ensures Lookup(Overlay(entries, below), k) == if k in entries then entries[k].Seen() else Lookup(below, k)
  {}

  /** Two views with the same lookups are the same map. */
  lemma SameLookups(a: Utxo, b: Utxo)
    requires forall k :: Lookup(a, k) == Lookup(b, k)
    ensures a == b
  {
    forall k ensures k in a <==> k in b {
      assert Lookup(a, k) == Lookup(b, k);
    }
    forall k | k in a ensures a[k] == b[k] {
      assert Lookup(a, k) == Lookup(b, k);
    }
  }

  lemma OverlayEmpty(below: Utxo)
    ensures Overlay(map[], below) == below
  {}

  lemma EmptyCoherent(below: Utxo)
    ensures CoherentMap(map[], below) && TotalUsage(map[]) == 0
  {}

  // ---------- memory accounting ----------

  ghost function TotalUsage(m: CoinsMap): (total: nat)
    decreases |m|
  {
    if m == map[] then 0 else
      var k :| k in m;
      assert (m - {k}).Keys == m.Keys - {k};
      m[k].coin.DynamicMemoryUsage() + TotalUsage(m - {k})
  }

  lemma {:induction false} UsageRemove(m: CoinsMap, k: OutPoint)
    requires k in m
    ensures TotalUsage(m) == m[k].coin.DynamicMemoryUsage() + TotalUsage(m - {k})
    decreases |m|
  {
    var j :| j in m && TotalUsage(m) == m[j].coin.DynamicMemoryUsage() + TotalUsage(m - {j});
    if j != k {
      assert (m - {j}).Keys == m.Keys - {j};
      assert (m - {k}).Keys == m.Keys - {k};
      UsageRemove(m - {j}, k);
      UsageRemove(m - {k}, j);
      assert (m - {j}) - {k} == (m - {k}) - {j};
    }
  }

  lemma UsageUpdate(m: CoinsMap, k: OutPoint, e: CacheEntry)
    ensures TotalUsage(m[k := e]) ==
            TotalUsage(m) + e.coin.DynamicMemoryUsage() - (if k in m then m[k].coin.DynamicMemoryUsage() else 0)
  {
    UsageRemove(m[k := e], k);
    assert m[k := e] - {k} == m - {k};
    if k in m {
      UsageRemove(m, k);
    } else {
      assert m - {k} == m;
    }
  }

  // ---------- changing one entry ----------

  function Assign(view: Utxo, k: OutPoint, c: Option<Coin>): (r: Utxo) {
    if c.Some? then view[k := c.value] else view - {k}
  }

  lemma UpdateSound(m: CoinsMap, below: Utxo, k: OutPoint, e: CacheEntry)
    ensures Overlay(m[k := e], below) == Assign(Overlay(m, below), k, e.Seen())
    ensures CoherentMap(m, below) ==> (CoherentMap(m[k := e], below) <==> e.Coherent(Lookup(below, k)))
  {
    SameLookups(Overlay(m[k := e], below), Assign(Overlay(m, below), k, e.Seen()));
  }

  lemma EraseSound(m: CoinsMap, below: Utxo, k: OutPoint)
    requires k in m
    ensures Overlay(m - {k}, below) == Assign(Overlay(m, below), k, Lookup(below, k))
    ensures CoherentMap(m, below) ==> CoherentMap(m - {k}, below)
  {
    SameLookups(Overlay(m - {k}, below), Assign(Overlay(m, below), k, Lookup(below, k)));
  }

  /**
   Why overwriting must be announced: an unannounced add marks the entry FRESH over an unspent
   coin, so spending it erases the entry and the parent's coin shows through again.
   */
  lemma UnannouncedOverwrite(k: OutPoint, held: Coin, added: Coin)
    requires !held.IsSpent() && !added.IsSpent()
    ensures var below: Utxo := map[k := held];
            var cache: CoinsMap := map[k := CacheEntry(added, true, true)];
            && !CoherentMap(cache, below)
            && Overlay(cache, below) == map[k := added]
            && Overlay(cache - {k}, below) == map[k := held]
  {
    var below: Utxo := map[k := held];
    var cache: CoinsMap := map[k := CacheEntry(added, true, true)];
    assert !cache[k].Coherent(Lookup(below, k));
    EraseSound(cache, below, k);
  }

  // ---------- merging a flushed entry into the parent ----------

  /** The parent's entry after BatchWrite handles one dirty entry of the child. */
  function MergeEntry(parent: Option<CacheEntry>, child: CacheEntry): (merged: Option<CacheEntry>)
    requires child.isDirty
  {
    match parent
    case None =>
      if child.isFresh && child.coin.IsSpent() then None
      else Some(CacheEntry(child.coin, true, child.isFresh))
    case Some(us) =>
      if us.isFresh && child.coin.IsSpent() then None
      else Some(CacheEntry(child.coin, true, us.isFresh))
  }

  /** The condition under which BatchWrite throws for an entry. */
  predicate Misapplied(parent: Option<CacheEntry>, child: CacheEntry) {
    child.isDirty && child.isFresh && parent.Some? && !parent.value.coin.IsSpent()
  }

  function MergeSlot(parent: Option<CacheEntry>, child: Option<CacheEntry>): (merged: Option<CacheEntry>) {
    if child.Some? && child.value.isDirty then MergeEntry(parent, child.value) else parent
  }

  /** `merged` is `parents` after writing every dirty entry of `children`, in whatever order. */
  ghost predicate Merged(parents: CoinsMap, children: CoinsMap, merged: CoinsMap) {
    forall k :: Lookup(merged, k) == MergeSlot(Lookup(parents, k), Lookup(children, k))
  }

  lemma MergedUntouched(parents: CoinsMap, done: CoinsMap, now: CoinsMap, k: OutPoint)
    requires Merged(parents, done, now) && k !in done
    ensures Lookup(now, k) == Lookup(parents, k)
  {
    assert Lookup(now, k) == MergeSlot(Lookup(parents, k), Lookup(done, k));
  }

  lemma MergedStep(parents: CoinsMap, done: CoinsMap, now: CoinsMap, k: OutPoint, e: CacheEntry, next: CoinsMap)
    requires Merged(parents, done, now) && k !in done
    requires Lookup(next, k) == MergeSlot(Lookup(now, k), Some(e))
    requires forall j :: j != k ==> Lookup(next, j) == Lookup(now, j)
    ensures Merged(parents, done[k := e], next)
    ensures !Misapplied(Lookup(now, k), e) ==> !Misapplied(Lookup(parents, k), e)
  {
    MergedUntouched(parents, done, now, k);
    forall j ensures Lookup(next, j) == MergeSlot(Lookup(parents, j), Lookup(done[k := e], j)) {
      assert Lookup(now, j) == MergeSlot(Lookup(parents, j), Lookup(done, j));
    }
  }

  /** `done` is the part of `whole` that is no longer in `todo`. */
  ghost predicate Split(whole: CoinsMap, todo: CoinsMap, done: CoinsMap) {
    && todo.Keys !! done.Keys
    && forall k :: Lookup(whole, k) == if k in done then Some(done[k]) else Lookup(todo, k)
  }

  lemma SplitStep(whole: CoinsMap, todo: CoinsMap, done: CoinsMap, k: OutPoint)
    requires Split(whole, todo, done) && k in todo
    ensures Split(whole, Without(todo, k), done[k := todo[k]])
  {
    var todo', done' := Without(todo, k), done[k := todo[k]];
    forall j ensures Lookup(whole, j) == if j in done' then Some(done'[j]) else Lookup(todo', j) {
      assert Lookup(whole, j) == if j in done then Some(done[j]) else Lookup(todo, j);
    }
  }

  lemma SplitDone(whole: CoinsMap, done: CoinsMap)
    requires Split(whole, map[], done)
    ensures done == whole
  {
    forall k ensures Lookup(done, k) == Lookup(whole, k) {}
    forall k ensures k in done <==> k in whole { assert Lookup(done, k) == Lookup(whole, k); }
  }

  /** The FRESH flags of a coherent child never contradict its parent. */
  lemma NeverMisapplied(below: Utxo, parents: CoinsMap, children: CoinsMap)
    requires CoherentMap(children, Overlay(parents, below))
    ensures forall k :: k in children ==> !Misapplied(Lookup(parents, k), children[k])
  {
    forall k | k in children ensures !Misapplied(Lookup(parents, k), children[k]) {
      OverlayLookup(parents, below, k);
    }
  }

  /** Merging keeps every flag promise of the parent and shows it what the child showed. */
  lemma MergeSound(below: Utxo, parents: CoinsMap, children: CoinsMap, merged: CoinsMap)
    requires CoherentMap(parents, below)
    requires CoherentMap(children, Overlay(parents, below))
    requires Merged(parents, children, merged)
    ensures CoherentMap(merged, below)
    ensures Overlay(merged, below) == Overlay(children, Overlay(parents, below))
  {
    var view := Overlay(parents, below);
    forall k ensures k in merged ==> merged[k].Coherent(Lookup(below, k))
             ensures Lookup(Overlay(merged, below), k) == Lookup(Overlay(children, view), k)
    {
      OverlayLookup(parents, below, k);
      OverlayLookup(merged, below, k);
      OverlayLookup(children, view, k);
      assert Lookup(merged, k) == MergeSlot(Lookup(parents, k), Lookup(children, k));
    }
    SameLookups(Overlay(merged, below), Overlay(children, view));
  }

  // ---------- the views ----------

  /** What a stored map shows for an outpoint. */
  function Shown(stored: map<OutPoint, Coin>, k: OutPoint): Option<Coin> {
    if k in stored && !stored[k].IsSpent() then Some(stored[k]) else None
  }

  predicate SpentAreNull(stored: map<OutPoint, Coin>) {
    forall k :: k in stored && stored[k].IsSpent() ==> stored[k] == NULL_COIN
  }

  /** One step of a database write. */
  function WriteOne(stored: map<OutPoint, Coin>, k: OutPoint, e: CacheEntry, keepEmpty: bool): (r: map<OutPoint, Coin>)
    requires e.LegalFlags()
    ensures SpentAreNull(stored) ==> SpentAreNull(r)
    ensures forall j :: Shown(r, j) == if j == k && e.isDirty then e.Seen() else Shown(stored, j)
  {
    if !e.isDirty then stored
    else if e.coin.IsSpent() && !keepEmpty then stored - {k}
    else stored[k := e.coin]
  }

  /** The bottom of a stack: CCoinsViewDB, or any map-like view that may also keep or report spent coins. */
  class CoinsDB {
    var stored: map<OutPoint, Coin>

    ghost predicate Valid()
      reads this
    {
      SpentAreNull(stored)
    }

    ghost function Coins(): (view: Utxo)
      reads this
      ensures forall k :: Lookup(view, k) == Shown(stored, k)
    {
      map k | k in stored && !stored[k].IsSpent() :: stored[k]
    }

    /** May report a stored spent coin as found, as the contract of older views allowed. */
    method GetCoin(outpoint: OutPoint) returns (found: bool, coin: Coin)
      requires Valid()
      ensures Lookup(Coins(), outpoint) == if found && !coin.IsSpent() then Some(coin) else None
      ensures coin.IsSpent() ==> coin == NULL_COIN
      ensures found ==> outpoint in stored && coin == stored[outpoint]
    {
      found, coin := false, NULL_COIN;
      if outpoint in stored {
        var reportEmpty: bool := *;
        if !stored[outpoint].IsSpent() || reportEmpty {
          found, coin := true, stored[outpoint];
        }
      }
    }

    /** Writes the dirty entries; a failed write leaves unspecified contents. */
    method BatchWrite(mapCoins: CoinsMap) returns (ok: bool)
      requires Valid()
      requires CoherentMap(mapCoins, Coins())
      modifies this
      ensures Valid()
      ensures ok ==> Coins() == Overlay(mapCoins, old(Coins()))
    {
      WriteAll(mapCoins);
      ghost var after := Overlay(mapCoins, old(Coins()));
      forall k ensures Lookup(Coins(), k) == Lookup(after, k) {
        OverlayLookup(mapCoins, old(Coins()), k);
      }
      SameLookups(Coins(), after);
      ok := *;
      if !ok {
        stored := *;
        if !SpentAreNull(stored) {
          stored := map[];
        }
      }
    }

    method WriteAll(mapCoins: CoinsMap)
      requires Valid()
      requires CoherentMap(mapCoins, Coins())
      modifies this
      ensures Valid()
      ensures forall k :: Shown(stored, k) == if k in mapCoins then mapCoins[k].Seen() else old(Shown(stored, k))
    {
      ghost var was := stored;
      var todo := mapCoins;
      while todo != map[]
        invariant SpentAreNull(stored)
        invariant forall k :: k in todo ==> k in mapCoins && todo[k] == mapCoins[k]
        invariant forall k :: Shown(stored, k) == if k in mapCoins && k !in todo then mapCoins[k].Seen() else Shown(was, k)
        decreases |todo|
      {
        var k :| k in todo;
        assert mapCoins[k].Coherent(Lookup(old(Coins()), k));
        var keepEmpty: bool := *;
        stored := WriteOne(stored, k, todo[k], keepEmpty);
        todo := Without(todo, k);
      }
    }
  }

  /** The base of a cache; CCoinsView with its two kinds of implementation. */
  datatype CoinsView = Database(db: CoinsDB) | Cache(cache: CoinsViewCache)
  {
    ghost function Depth(): nat {
      match this case Database(_) => 0 case Cache(c) => c.depth
    }

    ghost function Repr(): set<object> {
      match this case Database(db) => {db} case Cache(c) => c.Repr
    }

    ghost predicate Valid()
      reads Repr()
      ensures Cache? ==> Valid() == (cache in cache.Repr && cache.Valid())
      ensures Database? ==> Valid() == db.Valid()
      decreases Depth(), 3
    {
      match this case Database(db) => db.Valid() case Cache(c) => c in c.Repr && c.Valid()
    }

    ghost function Coins(): (view: Utxo)
      requires Valid()
      reads Repr()
      ensures view == match this case Database(db) => db.Coins() case Cache(c) => c.Coins()
      ensures AllUnspent(view)
      decreases Depth(), 4
    {
      match this case Database(db) => db.Coins() case Cache(c) => c.Coins()
    }

    /** The views of the whole stack from here down. */
    ghost function Views(): (views: seq<Utxo>)
      requires Valid()
      reads Repr()
      ensures views == match this case Database(db) => [db.Coins()] case Cache(c) => c.Views()
      ensures views != [] && views[0] == Coins()
      decreases Depth(), 5
    {
      match this case Database(db) => [db.Coins()] case Cache(c) => c.Views()
    }

    /** The view never reports a spent coin as found. */
    ghost predicate Plain()
      reads Repr()
    {
      match this case Database(db) => (forall k :: k in db.stored ==> !db.stored[k].IsSpent()) case Cache(_) => true
    }

    method GetCoin(outpoint: OutPoint) returns (found: bool, coin: Coin)
      requires Valid()
      modifies Repr()
      ensures Valid() && Views() == old(Views())
      ensures Lookup(Coins(), outpoint) == if found && !coin.IsSpent() then Some(coin) else None
      ensures coin.IsSpent() ==> coin == NULL_COIN
      ensures Plain() == old(Plain()) && (Plain() ==> (found <==> outpoint in Coins()))
      decreases Depth(), 8
    {
      match this {
        case Database(db) => found, coin := db.GetCoin(outpoint);
        case Cache(c) => found, coin := c.GetCoin(outpoint);
      }
    }

    method BatchWrite(mapCoins: CoinsMap) returns (ok: bool, threw: bool)
      requires Valid() && CoherentMap(mapCoins, Coins())
      modifies Repr()
      ensures Valid() && !threw
      ensures Cache? ==> ok
      ensures ok ==> Views() == [Overlay(mapCoins, old(Coins()))] + old(Views())[1..]
    {
      match this {
        case Database(db) =>
          ok := db.BatchWrite(mapCoins);
          threw := false;
        case Cache(parent) =>
          threw := parent.Absorb(mapCoins);
          ok := true;
      }
    }
  }

  /** CCoinsViewCache. */
  class CoinsViewCache {
    const base: CoinsView
    var cacheCoins: CoinsMap
    var cachedCoinsUsage: int

    ghost const depth: nat
    ghost const Repr: set<object>

    /** The chain of bases below this cache is well formed. */
    ghost predicate Shape()
      reads this, Repr
      decreases depth, 0
    {
      && this in Repr
      && base.Repr() <= Repr
      && this !in base.Repr()
      && base.Depth() < depth
      && base.Valid()
    }

    /** Flags and memory accounting are right for the base's current view. */
    ghost predicate Coherent()
      requires Shape()
      reads this, Repr
      decreases depth, 1
    {
      && CoherentMap(cacheCoins, base.Coins())
      && cachedCoinsUsage == TotalUsage(cacheCoins)
    }

    ghost predicate Valid()
      reads this, Repr
      ensures Valid() ==> Shape() && Coherent()
      decreases depth, 2
    {
      Shape() && Coherent()
    }

    ghost function Coins(): (view: Utxo)
      requires Shape()
      reads this, Repr
      ensures AllUnspent(view)
      decreases depth, 1
    {
      Overlay(cacheCoins, base.Coins())
    }

    ghost function Views(): (views: seq<Utxo>)
      requires Shape()
      reads this, Repr
      ensures views != [] && views[0] == Coins()
      decreases depth, 2
    {
      [Coins()] + base.Views()
    }

    constructor (base: CoinsView)
      requires base.Valid()
      ensures Valid() && this.base == base && Repr == {this} + base.Repr()
      ensures fresh(this)
      ensures Views() == [base.Coins()] + base.Views()
      ensures cacheCoins == map[]
    {
      this.base := base;
      cacheCoins, cachedCoinsUsage := map[], 0;
      depth := base.Depth() + 1;
      Repr := {this} + base.Repr();
      new;
      OverlayEmpty(base.Coins());
    }

    /** Stores an entry and accounts for its memory in place of the entry it replaces. */
    method Put(k: OutPoint, e: CacheEntry)
      modifies this
      ensures cacheCoins == old(cacheCoins)[k := e]
      ensures old(cachedCoinsUsage == TotalUsage(cacheCoins)) ==> cachedCoinsUsage == TotalUsage(cacheCoins)
    {
      UsageUpdate(cacheCoins, k, e);
      if k in cacheCoins {
        cachedCoinsUsage := cachedCoinsUsage - cacheCoins[k].coin.DynamicMemoryUsage();
      }
      cacheCoins := cacheCoins[k := e];
      cachedCoinsUsage := cachedCoinsUsage + e.coin.DynamicMemoryUsage();
    }

    /** Removes an entry and its memory. */
    method Erase(k: OutPoint)
      requires k in cacheCoins
      modifies this
      ensures cacheCoins == old(cacheCoins) - {k}
      ensures old(cachedCoinsUsage == TotalUsage(cacheCoins)) ==> cachedCoinsUsage == TotalUsage(cacheCoins)
    {
      UsageRemove(cacheCoins, k);
      cachedCoinsUsage := cachedCoinsUsage - cacheCoins[k].coin.DynamicMemoryUsage();
      cacheCoins := cacheCoins - {k};
    }

    /** Put, seen from above: the view changes at k only, and the flags of `e` decide coherence. */
    method Store(k: OutPoint, e: CacheEntry)
      requires Shape()
      modifies this
      ensures Shape() && base.Views() == old(base.Views())
      ensures cacheCoins == old(cacheCoins)[k := e]
      ensures Coins() == Assign(old(Coins()), k, e.Seen())
      ensures old(Coherent()) ==> (Coherent() <==> e.Coherent(Lookup(base.Coins(), k)))
    {
      UpdateSound(cacheCoins, base.Coins(), k, e);
      Put(k, e);
    }

    /** Erase, seen from above: the base shows through at k. */
    method Discard(k: OutPoint)
      requires Shape() && k in cacheCoins
      modifies this
      ensures Shape() && base.Views() == old(base.Views())
      ensures cacheCoins == old(cacheCoins) - {k}
      ensures Coins() == Assign(old(Coins()), k, Lookup(base.Coins(), k))
      ensures old(Coherent()) ==> Coherent()
    {
      EraseSound(cacheCoins, base.Coins(), k);
      Erase(k);
    }

    method FetchCoin(outpoint: OutPoint) returns (found: bool)
      requires Valid()
      modifies Repr
      ensures Valid() && Views() == old(Views())
      ensures found <==> outpoint in cacheCoins
      ensures !found ==> outpoint !in Coins()
      ensures outpoint in old(cacheCoins) ==> found && cacheCoins == old(cacheCoins)
      ensures base.Plain() == old(base.Plain())
      ensures base.Plain() ==> (found <==> outpoint in old(cacheCoins) || outpoint in old(Coins()))
      ensures base.Views() == old(base.Views())
      decreases depth, 6
    {
      if outpoint in cacheCoins {
        return true;
      }
      var ok, tmp := base.GetCoin(outpoint);
      if !ok {
        return false;
      }
      var entry := CacheEntry(tmp, false, tmp.IsSpent());
      Store(outpoint, entry);
      SameLookups(Coins(), old(Coins()));
      return true;
    }

    method GetCoin(outpoint: OutPoint) returns (found: bool, coin: Coin)
      requires Valid()
      modifies Repr
      ensures Valid() && Views() == old(Views())
      ensures Lookup(Coins(), outpoint) == if found then Some(coin) else None
      ensures found == !coin.IsSpent()
      ensures !found ==> coin == NULL_COIN
      decreases depth, 7
    {
      var cached := FetchCoin(outpoint);
      coin := NULL_COIN;
      if cached {
        coin := cacheCoins[outpoint].coin;
      }
      found := !coin.IsSpent();
    }

    method HaveCoin(outpoint: OutPoint) returns (have: bool)
      requires Valid()
      modifies Repr
      ensures Valid() && Views() == old(Views())
      ensures have <==> outpoint in Coins()
    {
      var cached := FetchCoin(outpoint);
      have := cached && !cacheCoins[outpoint].coin.IsSpent();
    }

    /** Throws when told that nothing can be overwritten and the cache itself knows better. */
    method AddCoin(outpoint: OutPoint, coin: Coin, possibleOverwrite: bool) returns (threw: bool)
      requires Valid() && !coin.IsSpent()
      modifies this
      ensures Shape() && base.Views() == old(base.Views())
      ensures threw <==> !IsUnspendable(coin.out.script) && !possibleOverwrite
                         && outpoint in old(cacheCoins) && !old(cacheCoins)[outpoint].coin.IsSpent()
      ensures !threw ==>
                Coins() == if IsUnspendable(coin.out.script) then old(Coins()) else old(Coins())[outpoint := coin]
      ensures !threw ==>
                (Valid() <==> IsUnspendable(coin.out.script) || possibleOverwrite || outpoint !in old(Coins()))
      ensures threw ==> Coins() == old(Coins())
    {
      if IsUnspendable(coin.out.script) {
        return false;
      }
      var markFresh := false;
      var entry := if outpoint in cacheCoins then cacheCoins[outpoint] else CacheEntry(NULL_COIN, false, false);
      if !possibleOverwrite {
        if !entry.coin.IsSpent() {
          cachedCoinsUsage := cachedCoinsUsage - entry.coin.DynamicMemoryUsage();
          return true;
        }
        markFresh := !entry.isDirty;
      }
      entry := CacheEntry(coin, true, entry.isFresh || markFresh);
      Store(outpoint, entry);
      return false;
    }

    /** The result is true exactly when an entry was found, even one that was already spent. */
    method SpendCoin(outpoint: OutPoint) returns (found: bool, moveout: Coin)
      requires Valid()
      modifies Repr
      ensures Valid()
      ensures Coins() == old(Coins()) - {outpoint}
      ensures base.Views() == old(base.Views())
      ensures outpoint in old(Coins()) ==> found && moveout == old(Coins())[outpoint]
      ensures outpoint !in old(Coins()) ==> moveout == NULL_COIN
      ensures outpoint in old(cacheCoins) ==> found && (outpoint in cacheCoins <==> !old(cacheCoins)[outpoint].isFresh)
      ensures base.Plain() == old(base.Plain())
      ensures base.Plain() ==> (found <==> outpoint in old(cacheCoins) || outpoint in old(Coins()))
    {
      found := FetchCoin(outpoint);
      if !found {
        return false, NULL_COIN;
      }
      var entry := cacheCoins[outpoint];
      moveout := entry.coin;
      if entry.isFresh {
        Discard(outpoint);
      } else {
        entry := CacheEntry(NULL_COIN, true, false);
        Store(outpoint, entry);
      }
    }

    method Uncache(outpoint: OutPoint)
      requires Valid()
      modifies this
      ensures Valid() && Views() == old(Views())
      ensures cacheCoins == if outpoint in old(cacheCoins) && !old(cacheCoins)[outpoint].isDirty
                                 && !old(cacheCoins)[outpoint].isFresh
                            then old(cacheCoins) - {outpoint} else old(cacheCoins)
    {
      if outpoint in cacheCoins && !cacheCoins[outpoint].isDirty && !cacheCoins[outpoint].isFresh {
        Discard(outpoint);
        SameLookups(Coins(), old(Coins()));
      }
    }

    /**
     Merges the entries of a child.  The loop throws exactly when some dirty FRESH entry is unspent
     here; otherwise the outcome does not depend on the order of iteration.
     */
    method BatchWrite(mapCoins: CoinsMap) returns (threw: bool)
      requires cachedCoinsUsage == TotalUsage(cacheCoins)
      modifies this
      ensures threw <==> exists k :: k in mapCoins && Misapplied(Lookup(old(cacheCoins), k), mapCoins[k])
      ensures !threw ==> Merged(old(cacheCoins), mapCoins, cacheCoins)
      ensures !threw ==> cachedCoinsUsage == TotalUsage(cacheCoins)
    {
      ghost var was := cacheCoins;
      ghost var done: CoinsMap := map[];
      var todo := mapCoins;
      while todo != map[]
        invariant Split(mapCoins, todo, done)
        invariant Merged(was, done, cacheCoins)
        invariant forall k :: k in done ==> !Misapplied(Lookup(was, k), done[k])
        invariant cachedCoinsUsage == TotalUsage(cacheCoins)
        decreases |todo|
      {
        var k :| k in todo;
        assert Lookup(mapCoins, k) == Some(todo[k]);
        ghost var before := cacheCoins;
        if todo[k].isDirty {
          threw := MergeOne(k, todo[k]);
          if threw {
            MergedUntouched(was, done, before, k);
            return;
          }
        }
        MergedStep(was, done, before, k, todo[k], cacheCoins);
        SplitStep(mapCoins, todo, done, k);
        done := done[k := todo[k]];
        todo := Without(todo, k);
      }
      SplitDone(mapCoins, done);
      threw := false;
    }

    /** Flushing a coherent child into this cache. */
    method Absorb(mapCoins: CoinsMap) returns (threw: bool)
      requires Valid() && CoherentMap(mapCoins, Coins())
      modifies this
      ensures !threw
      ensures Valid()
      ensures Coins() == Overlay(mapCoins, old(Coins()))
      ensures base.Views() == old(base.Views())
    {
      NeverMisapplied(base.Coins(), cacheCoins, mapCoins);
      threw := BatchWrite(mapCoins);
      MergeSound(base.Coins(), old(cacheCoins), mapCoins, cacheCoins);
    }

    method MergeOne(k: OutPoint, child: CacheEntry) returns (threw: bool)
      requires child.isDirty
      modifies this
      ensures threw <==> Misapplied(Lookup(old(cacheCoins), k), child)
      ensures !threw ==> Lookup(cacheCoins, k) == MergeEntry(Lookup(old(cacheCoins), k), child)
      ensures forall j :: j != k ==> Lookup(cacheCoins, j) == Lookup(old(cacheCoins), j)
      ensures old(cachedCoinsUsage == TotalUsage(cacheCoins)) ==> cachedCoinsUsage == TotalUsage(cacheCoins)
    {
      if k !in cacheCoins {
        if !(child.isFresh && child.coin.IsSpent()) {
          Put(k, CacheEntry(child.coin, true, child.isFresh));
        }
      } else {
        var us := cacheCoins[k];
        if child.isFresh && !us.coin.IsSpent() {
          return true;
        }
        if us.isFresh && child.coin.IsSpent() {
          Erase(k);
        } else {
          Put(k, CacheEntry(child.coin, true, us.isFresh));
        }
      }
      threw := false;
    }

    /** Pushes the changes to the base.  Only a database can fail; a cache below can neither fail nor throw. */
    method Flush() returns (ok: bool, threw: bool)
      requires Valid()
      modifies Repr
      ensures !threw && Valid() && cacheCoins == map[]
      ensures base.Cache? ==> ok
      ensures ok ==> Views() == [old(Coins())] + ([old(Coins())] + old(base.Views())[1..])
    {
      hide AllUnspent, CoherentMap, Overlay, TotalUsage;
      ok, threw := base.BatchWrite(cacheCoins);
      Forget();
    }

    /** Empties the cache: it shows its base. */
    method Forget()
      requires Shape()
      modifies this
      ensures Valid() && cacheCoins == map[] && base.Views() == old(base.Views())
      ensures Views() == [base.Views()[0]] + base.Views()
    {
      hide AllUnspent, CoherentMap, Overlay, TotalUsage;
      cacheCoins, cachedCoinsUsage := map[], 0;
      OverlayEmpty(base.Coins());
      EmptyCoherent(base.Coins());
    }
  }

  // ---------- whole runs over a stack of caches ----------

  /** An operation on the top of a stack.  Push adds a layer; Drop discards one with its unflushed changes. */
  datatype Op =
    | Get(k: OutPoint)
    | Have(k: OutPoint)
    | Add(k: OutPoint, coin: Coin, possibleOverwrite: bool)
    | Spend(k: OutPoint)
    | Uncache(k: OutPoint)
    | Flush
    | Push
    | Drop

  datatype Answer = Found(c: Option<Coin>) | Holds(b: bool) | Silent

  /** What callers owe: only unspent coins are added, and overwriting is announced. */
  predicate Legal(op: Op, views: seq<Utxo>)
    requires |views| >= 2
  {
    match op
    case Add(k, coin, possibleOverwrite) =>
      !coin.IsSpent() && (IsUnspendable(coin.out.script) || possibleOverwrite || k !in views[0])
    case Drop => |views| >= 3
    case _ => true
  }

  /** The specification: a stack of plain maps, where only Flush touches the second one. */
  function SpecStep(op: Op, views: seq<Utxo>): (after: seq<Utxo>)
    requires |views| >= 2
    ensures |after| >= 2
  {
    match op
    case Add(k, coin, _) =>
      if IsUnspendable(coin.out.script) then views else [views[0][k := coin]] + views[1..]
    case Spend(k) => [views[0] - {k}] + views[1..]
    case Flush => [views[0]] + ([views[0]] + views[2..])
    case Push => [views[0]] + views
    case Drop => if |views| >= 3 then views[1..] else views
    case _ => views
  }

  function SpecAnswer(op: Op, views: seq<Utxo>): (a: Answer)
    requires |views| >= 2
  {
    match op
    case Get(k) => Found(Lookup(views[0], k))
    case Spend(k) => Found(Lookup(views[0], k))
    case Have(k) => Holds(k in views[0])
    case _ => Silent
  }

  /** The answers and the final stack of a run on plain maps. */
  function SpecRun(ops: seq<Op>, views: seq<Utxo>): (r: (seq<Answer>, seq<Utxo>))
    requires |views| >= 2
    ensures |r.0| == |ops| && |r.1| >= 2
  {
    if ops == [] then ([], views) else
      var rest := SpecRun(ops[1..], SpecStep(ops[0], views));
      ([SpecAnswer(ops[0], views)] + rest.0, rest.1)
  }

  /** The stack after one more operation. */
  lemma {:induction false} PrefixRun(ops: seq<Op>, views: seq<Utxo>, n: nat)
    requires |views| >= 2 && ops != [] && n < |ops|
    ensures SpecRun(ops[..n + 1], views).1 == SpecRun(ops[1..][..n], SpecStep(ops[0], views)).1
  {
    hide SpecStep;
    assert ops[..n + 1][1..] == ops[1..][..n];
  }

  lemma {:induction false} UnfoldRun(ops: seq<Op>, views: seq<Utxo>)
    requires |views| >= 2
    ensures ops == [] ==> SpecRun(ops, views) == ([], views)
    ensures SpecRun(ops[..0], views).1 == views
    ensures ops != [] ==>
              var rest := SpecRun(ops[1..], SpecStep(ops[0], views));
              && SpecRun(ops, views) == ([SpecAnswer(ops[0], views)] + rest.0, rest.1)
              && (LegalRun(ops, views) ==> Legal(ops[0], views) && LegalRun(ops[1..], SpecStep(ops[0], views)))
  {
    hide SpecStep, SpecAnswer, Legal;
  }

  lemma {:induction false} RunNext(ops: seq<Op>, views: seq<Utxo>, answers: seq<Answer>)
    requires |views| >= 2 && ops != [] && answers <= SpecRun(ops[1..], SpecStep(ops[0], views)).0
    ensures [SpecAnswer(ops[0], views)] + answers <= SpecRun(ops, views).0
    ensures |answers| < |ops|
    ensures SpecRun(ops[..|answers| + 1], views).1 == SpecRun(ops[1..][..|answers|], SpecStep(ops[0], views)).1
  {
    hide SpecStep, SpecAnswer, SpecRun, LegalRun;
    UnfoldRun(ops, views);
    PrefixRun(ops, views, |answers|);
  }

  predicate LegalRun(ops: seq<Op>, views: seq<Utxo>)
    requires |views| >= 2
  {
    ops == [] || (Legal(ops[0], views) && LegalRun(ops[1..], SpecStep(ops[0], views)))
  }

  /** Spending twice: the second call still reports success exactly when the cache kept the spent entry. */
  method SpendTwice(cache: CoinsViewCache, outpoint: OutPoint) returns (again: bool, moveout: Coin)
    requires cache.Valid() && outpoint in cache.cacheCoins
    modifies cache.Repr
    ensures cache.Valid() && moveout == NULL_COIN
    ensures !old(cache.cacheCoins)[outpoint].isFresh ==> again
    ensures cache.base.Plain() ==> (again <==> !old(cache.cacheCoins)[outpoint].isFresh)
  {
    var first, coin := cache.SpendCoin(outpoint);
    again, moveout := cache.SpendCoin(outpoint);
  }

  method SpendTop(top: CoinsViewCache, k: OutPoint) returns (a: Answer)
    requires top.Valid()
    modifies top.Repr
    ensures top.Valid()
    ensures top.Views() == SpecStep(Spend(k), old(top.Views())) && a == SpecAnswer(Spend(k), old(top.Views()))
  {
    var found, coin := top.SpendCoin(k);
    a := Found(if coin.IsSpent() then None else Some(coin));
  }

  method AddTop(top: CoinsViewCache, k: OutPoint, coin: Coin, possibleOverwrite: bool)
    requires top.Valid() && Legal(Add(k, coin, possibleOverwrite), top.Views())
    modifies top.Repr
    ensures top.Valid() && top.Views() == SpecStep(Add(k, coin, possibleOverwrite), old(top.Views()))
  {
    var threw := top.AddCoin(k, coin, possibleOverwrite);
  }

  lemma StackOf(c: CoinsViewCache)
    requires c.Shape()
    ensures c.Views() == [c.Coins()] + c.base.Views() && (c.base.Database? ==> |c.Views()| == 2)
  {
    hide AllUnspent, Overlay;
  }

  lemma FlushedStack(views: seq<Utxo>, below: seq<Utxo>, after: seq<Utxo>)
    requires below != [] && views != [] && views == [views[0]] + below && after == [views[0]] + ([views[0]] + below[1..])
    ensures after == SpecStep(Flush, views)
  {
    assert views[2..] == below[1..];
  }

  method FlushTop(top: CoinsViewCache) returns (ok: bool)
    requires top.Valid()
    modifies top.Repr
    ensures top.Valid() && (ok ==> top.Views() == SpecStep(Flush, old(top.Views())))
    ensures !ok ==> |old(top.Views())| == 2 && top.cacheCoins == map[]
  {
    hide AllUnspent, CoherentMap, Overlay, TotalUsage, SpecStep;
    ghost var views, below := top.Views(), top.base.Views();
    StackOf(top);
    var threw: bool;
    ok, threw := top.Flush();
    if ok {
      FlushedStack(views, below, top.Views());
    }
  }

  method LookTop(top: CoinsViewCache, op: Op) returns (a: Answer)
    requires top.Valid() && (op.Get? || op.Have? || op.Uncache?)
    modifies top.Repr
    ensures top.Valid()
    ensures top.Views() == SpecStep(op, old(top.Views())) && a == SpecAnswer(op, old(top.Views()))
  {
    a := Silent;
    match op {
      case Get(k) =>
        var found, coin := top.GetCoin(k);
        a := Found(if found then Some(coin) else None);
      case Have(k) =>
        var have := top.HaveCoin(k);
        a := Holds(have);
      case Uncache(k) =>
        top.Uncache(k);
    }
  }

  /** One operation on the top cache. */
  method StepTop(top: CoinsViewCache, op: Op) returns (a: Answer, ok: bool)
    requires top.Valid() && Legal(op, top.Views()) && !op.Push? && !op.Drop?
    modifies top.Repr
    ensures top.Valid()
    ensures ok ==> top.Views() == SpecStep(op, old(top.Views())) && a == SpecAnswer(op, old(top.Views()))
    ensures !ok ==> op.Flush? && |old(top.Views())| == 2 && top.cacheCoins == map[]
  {
    a, ok := Silent, true;
    if op.Spend? {
      a := SpendTop(top, op.k);
    } else if op.Add? {
      AddTop(top, op.k, op.coin, op.possibleOverwrite);
    } else if op.Flush? {
      ok := FlushTop(top);
    } else {
      a := LookTop(top, op);
    }
  }

  /** One operation, which may also change which cache is on top. */
  method Step(top: CoinsViewCache, op: Op) returns (next: CoinsViewCache, a: Answer, ok: bool)
    requires top.Valid() && Legal(op, top.Views())
    modifies top.Repr
    ensures next.Valid() && fresh(next.Repr - top.Repr)
    ensures ok ==> next.Views() == SpecStep(op, old(top.Views())) && a == SpecAnswer(op, old(top.Views()))
    ensures !ok ==> op.Flush? && |old(top.Views())| == 2 && next.cacheCoins == map[]
  {
    next, a, ok := top, Silent, true;
    if op.Push? {
      next := new CoinsViewCache(Cache(top));
    } else if op.Drop? {
      next := top.base.cache;
    } else {
      a, ok := StepTop(top, op);
    }
  }

  /**
   Every legal run on a stack of any depth behaves like the run on plain maps, both in what each
   call answers and in what every layer shows.  It can only stop early at the flush of a cache that lies directly on
   the database, whose write may fail, and that cache is then empty.
   */
  method Run(top: CoinsViewCache, ops: seq<Op>) returns (last: CoinsViewCache, answers: seq<Answer>)
    requires top.Valid() && LegalRun(ops, top.Views())
    modifies top.Repr
    ensures last.Valid()
    ensures |answers| <= |ops| && answers <= SpecRun(ops, old(top.Views())).0
    ensures |answers| < |ops| ==>
              ops[|answers|].Flush? && |SpecRun(ops[..|answers|], old(top.Views())).1| == 2 && last.cacheCoins == map[]
    ensures |answers| == |ops| ==> last.Views() == SpecRun(ops, old(top.Views())).1
    decreases |ops|
  {
    hide SpecStep, SpecAnswer, Legal, SpecRun, LegalRun, AllUnspent, CoherentMap, Overlay, TotalUsage;
    last, answers := top, [];
    UnfoldRun(ops, top.Views());
    if ops != [] {
      var a, ok;
      last, a, ok := Step(top, ops[0]);
      if ok {
        last, answers := Run(last, ops[1..]);
        RunNext(ops, old(top.Views()), answers);
        answers := [a] + answers;
      }
    }
  }
}
