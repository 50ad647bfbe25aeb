/**
Block index entries with skip pointers, and the active chain: src/chain.h and src/chain.cpp.

Links and heights are set once, when a block enters the index (src/validation.cpp:3270-3285), and are constants
here; skip pointers are written later, by BuildSkip.
*/
module Chain {
  import opened Numbers

  // ------------------------------------------------------------------ skip heights

  /** Bitwise and. */
  function BitAnd(x: nat, y: nat): (z: nat) {
    if x == 0 || y == 0 then 0
    else (if x % 2 == 1 && y % 2 == 1 then 1 else 0) + 2 * BitAnd(x / 2, y / 2)
  }

  lemma {:induction false} BitAndSelf(x: nat)
    ensures BitAnd(x, x) == x
  {
    if x != 0 { BitAndSelf(x / 2); }
  }

  /** n & (n - 1); for zero the source computes 0 & -1. */
  function InvertLowestOne(n: nat): (m: nat) {
    if n == 0 then 0 else BitAnd(n, n - 1)
  }

  /** The lowest 1 bit becomes a 0 and nothing else changes. */
  lemma {:induction false} InvertLowestOneIs(k: nat, m: nat)
    ensures InvertLowestOne(Pow2(k) * (2 * m + 1)) == Pow2(k) * (2 * m)
  {
    if k == 0 {
      BitAndSelf(m);
    } else {
      var h := Pow2(k - 1) * (2 * m + 1);
      assert Pow2(k) * (2 * m + 1) == 2 * h by { MulAssoc(2, Pow2(k - 1), 2 * m + 1); }
      assert Pow2(k) * (2 * m) == 2 * (Pow2(k - 1) * (2 * m)) by { MulAssoc(2, Pow2(k - 1), 2 * m); }
      InvertLowestOneIs(k - 1, m);
      assert h > 0 by { MulMono(Pow2(k - 1), 1, 2 * m + 1); }
      InvertEven(h);
    }
  }

  lemma InvertEven(h: nat)
    requires h > 0
    ensures InvertLowestOne(2 * h) == 2 * InvertLowestOne(h)
  {
    assert 2 * h / 2 == h && (2 * h - 1) / 2 == h - 1;
  }

  lemma {:induction false} InvertSmaller(n: nat)
    ensures InvertLowestOne(n) <= n
    ensures n > 0 ==> InvertLowestOne(n) < n
  {
    if n > 0 {
      if n % 2 == 1 {
        var h := n / 2;
        assert n == 2 * h + 1 && (n - 1) / 2 == h;
        BitAndSelf(h);
      } else {
        InvertSmaller(n / 2);
        InvertEven(n / 2);
      }
    }
  }

  function GetSkipHeight(height: nat): (h: nat) {
    if height < 2 then 0
    else if height % 2 == 1 then InvertLowestOne(InvertLowestOne(height - 1)) + 1
    else InvertLowestOne(height)
  }

  /** Skip pointers always lead strictly down. */
  lemma SkipHeightSmaller(height: nat)
    requires height > 0
    ensures GetSkipHeight(height) < height
  {
    if height >= 2 {
      InvertSmaller(height);
      InvertSmaller(height - 1);
      InvertSmaller(InvertLowestOne(height - 1));
    }
  }

  /** Where the search for height t goes from height w: to the skip target unless the parent's is better. */
  function NextHeight(w: nat, t: nat): (h: nat)
    requires t < w
    ensures t <= h < w
  {
    SkipHeightSmaller(w);
    var skip, skipPrev := GetSkipHeight(w), GetSkipHeight(w - 1);
    if skip == t || (skip > t && !(skipPrev < skip - 2 && skipPrev >= t)) then skip else w - 1
  }

  /** How many steps the search takes. */
  function Steps(w: nat, t: nat): nat
    requires t <= w
    decreases w
  {
    if w == t then 0 else 1 + Steps(NextHeight(w, t), t)
  }

  // ------------------------------------------------------------------ block index entries

  class BlockIndex {
    const pprev: BlockIndex?
    const nHeight: nat
    const hash: int
    var pskip: BlockIndex?

    constructor (prev: BlockIndex?, height: nat, hash: int)
      ensures pprev == prev && nHeight == height && this.hash == hash && pskip == null
    {
      pprev := prev;
      nHeight := height;
      this.hash := hash;
      pskip := null;
    }

    /** What becomes of a header that names its own hash as its parent: the search for a skip target returns it too. */
    constructor Looped(hash: int)
      ensures pprev == this && nHeight == 1 && this.hash == hash && pskip == this
    {
      pprev := this;
      nHeight := 1;
      this.hash := hash;
      pskip := this;
    }

    /** The parent links lead down one height at a time to a block at height zero. */
    ghost predicate Linked()
      decreases nHeight
    {
      if pprev == null then nHeight == 0
      else nHeight == pprev.nHeight + 1 && pprev.Linked()
    }

    /** The plain parent walk to a height; null where there is no ancestor of that height. */
    ghost function Walk(height: int): (r: BlockIndex?)
      requires Linked()
      ensures r != null <==> 0 <= height <= nHeight
      ensures r != null ==> r.nHeight == height && r.Linked()
      decreases nHeight
    {
      if height == nHeight then this
      else if height > nHeight || pprev == null then null
      else pprev.Walk(height)
    }

    /** This block and its ancestors. */
    ghost function Line(): (s: set<BlockIndex>)
      requires Linked()
      ensures forall b :: b in s ==> b.nHeight <= nHeight && b.Linked()
      ensures this in s
      decreases nHeight
    {
      if pprev == null then {this} else {this} + pprev.Line()
    }

    /** Every skip pointer on the way down that is set leads to the ancestor at its skip height. */
    ghost predicate SkipsOk()
      requires Linked()
      reads Line()
    {
      forall b :: b in Line() ==> b.pskip != null ==> b.pskip == b.Walk(GetSkipHeight(b.nHeight))
    }

    /** Every block on the way down but the last has its skip pointer. */
    ghost predicate AllSkip()
      requires Linked()
      reads Line()
    {
      forall b :: b in Line() ==> b.pprev != null ==> b.pskip != null
    }

    method GetAncestor(height: int) returns (r: BlockIndex?, ghost steps: nat)
      requires Linked() && SkipsOk()
      ensures r == Walk(height)
      ensures SkipsOk()
      ensures r != null && AllSkip() ==> steps == Steps(nHeight, height)
    {
      hide GetSkipHeight;
      steps := 0;
      if height > nHeight || height < 0 {
        return null, 0;
      }
      var pindexWalk: BlockIndex := this;
      var heightWalk := nHeight;
      while heightWalk > height
        invariant height <= heightWalk <= nHeight
        invariant pindexWalk.Linked() && pindexWalk.SkipsOk() && pindexWalk.nHeight == heightWalk
        invariant pindexWalk.Walk(height) == Walk(height) && SkipsOk()
        invariant AllSkip() ==> pindexWalk.AllSkip() && steps + Steps(heightWalk, height) == Steps(nHeight, height)
      {
        steps := steps + 1;
        var heightSkip := GetSkipHeight(heightWalk);
        var heightSkipPrev := GetSkipHeight(heightWalk - 1);
        SkipHeightSmaller(heightWalk);
        if pindexWalk.pskip != null &&
           (heightSkip == height ||
            (heightSkip > height && !(heightSkipPrev < heightSkip - 2 && heightSkipPrev >= height)))
        {
          WalkWalk(pindexWalk, heightSkip, height);
          WalkLine(pindexWalk, heightSkip);
          pindexWalk := pindexWalk.pskip;
          heightWalk := heightSkip;
        } else {
          assert pindexWalk.pprev != null;
          pindexWalk := pindexWalk.pprev;
          heightWalk := heightWalk - 1;
        }
      }
      return pindexWalk, steps;
    }

    method BuildSkip()
      requires Linked() && (pprev != null ==> pprev.SkipsOk())
      modifies this`pskip
      ensures pprev == null ==> pskip == old(pskip)
      ensures pprev != null ==> pskip == Walk(GetSkipHeight(nHeight)) && pskip != null && pskip.nHeight < nHeight
      ensures pprev != null ==> SkipsOk()
    {
      if pprev != null {
        SkipHeightSmaller(nHeight);
        assert this !in pprev.Line();
        var skip, _ := pprev.GetAncestor(GetSkipHeight(nHeight));
        pskip := skip;
        forall b | b in Line()
          ensures b.pskip != null ==> b.pskip == b.Walk(GetSkipHeight(b.nHeight))
        {
          assert b == this || b in pprev.Line();
        }
      }
    }
  }

  /** Walking in two stages. */
  lemma {:induction false} WalkWalk(b: BlockIndex, h: int, k: int)
    requires b.Linked() && 0 <= k <= h <= b.nHeight
    ensures b.Walk(h).Walk(k) == b.Walk(k)
    decreases b.nHeight
  {
    if h < b.nHeight { WalkWalk(b.pprev, h, k); }
  }

  lemma {:induction false} WalkLine(b: BlockIndex, h: int)
    requires b.Linked() && 0 <= h <= b.nHeight
    ensures b.Walk(h).Line() <= b.Line()
    decreases b.nHeight
  {
    if h < b.nHeight { WalkLine(b.pprev, h); }
  }

  // ------------------------------------------------------------------ the block index

  /** A new entry on top of its parent, with its skip pointer. */
  method NewEntry(pprev: BlockIndex?, hash: int, ghost blocks: set<BlockIndex>) returns (r: BlockIndex)
    requires pprev != null ==> pprev.Linked() && pprev.SkipsOk() && pprev.Line() <= blocks
    ensures fresh(r) && r.pprev == pprev && r.hash == hash && r.Linked() && r.SkipsOk()
    ensures pprev != null ==> r.nHeight == pprev.nHeight + 1 && r.pskip == r.Walk(GetSkipHeight(r.nHeight)) != null
    ensures pprev == null ==> r.nHeight == 0 && r.pskip == null
  {
    r := new BlockIndex(pprev, if pprev != null then pprev.nHeight + 1 else 0, hash);
    if pprev != null {
      r.BuildSkip();
    }
  }

  ghost function Blocks(m: map<int, BlockIndex>): set<BlockIndex> {
    set h | h in m :: m[h]
  }

  /** The block index: all known blocks by hash. */
  class BlockMap {
    var index: map<int, BlockIndex>

    /** Every block is linked to other blocks of the index, and every skip pointer below the roots is exact. */
    ghost predicate Valid()
      reads this, Blocks(index)
    {
      forall h :: h in index ==> BlockOk(index[h], Blocks(index)) && index[h].hash == h
    }

    constructor ()
      ensures Valid() && index == map[]
    {
      index := map[];
    }

    /** AddToBlockIndex, as far as links, heights and skip pointers go. */
    method AddToBlockIndex(hash: int, hashPrev: int) returns (r: BlockIndex)
      requires Valid()
      modifies this
      ensures Valid() <==> hash in old(index) || hash != hashPrev
      ensures hash in old(index) ==> index == old(index) && r == index[hash]
      ensures hash !in old(index) ==> fresh(r) && index == old(index)[hash := r]
      ensures hash !in old(index) && hash == hashPrev ==> r.pprev == r && r.nHeight == 1
      ensures hash !in old(index) && hash != hashPrev ==>
        && r.pprev == (if hashPrev in index then index[hashPrev] else null)
        && r.nHeight == (if hashPrev in index then index[hashPrev].nHeight + 1 else 0)
    {
      if hash in index {
        return index[hash];
      }
      if hash == hashPrev {
        r := new BlockIndex.Looped(hash);
        index := index[hash := r];
        assert !BlockOk(index[hash], Blocks(index));
        return;
      }
      var pprev: BlockIndex? := if hashPrev in index then index[hashPrev] else null;
      r := NewEntry(pprev, hash, Blocks(index));
      ghost var before := index;
      index := index[hash := r];
      BlocksGrow(before, hash, r);
      forall h | h in index
        ensures BlockOk(index[h], Blocks(index)) && index[h].hash == h
      {
        if h != hash {
          assert BlockOk(before[h], Blocks(before));
        }
      }
    }
  }

  lemma BlocksGrow(m: map<int, BlockIndex>, k: int, b: BlockIndex)
    requires k !in m
    ensures Blocks(m) <= Blocks(m[k := b]) && b in Blocks(m[k := b])
  {
    var n := m[k := b];
    assert n[k] == b;
    forall j | j in m
      ensures m[j] in Blocks(n)
    {
      assert n[j] == m[j];
    }
  }

  ghost predicate BlockOk(b: BlockIndex, blocks: set<BlockIndex>)
    reads blocks
  {
    && b.Linked()
    && b.Line() <= blocks
    && b.SkipsOk()
    && (b.pprev != null ==> b.pskip != null)
  }

  /** In the index every skip pointer on the way down is set, so that searches take `Steps` steps. */
  lemma IndexSkips(blockMap: BlockMap, b: BlockIndex)
    requires blockMap.Valid() && b in Blocks(blockMap.index)
    ensures b.Linked() && b.SkipsOk() && b.AllSkip()
  {
    var blocks := Blocks(blockMap.index);
    assert BlockOk(b, blocks);
    forall c | c in b.Line() ensures c.pprev != null ==> c.pskip != null {
      assert c in blocks;
      assert BlockOk(c, blocks);
    }
  }

  // ------------------------------------------------------------------ the active chain

  class ActiveChain {
    var vChain: seq<BlockIndex?>

    /** Entry i is a block of height i whose parent is entry i - 1. */
    ghost predicate Valid()
      reads this
    {
      forall i :: 0 <= i < |vChain| ==> EntryOk(vChain, i)
    }

    constructor ()
      ensures Valid() && vChain == []
    {
      vChain := [];
    }

    function Tip(): (r: BlockIndex?)
      reads this
    {
      if |vChain| > 0 then vChain[|vChain| - 1] else null
    }

    /** operator[] */
    function At(height: int): (r: BlockIndex?)
      reads this
    {
      if height < 0 || height >= |vChain| then null else vChain[height]
    }

    predicate Contains(b: BlockIndex)
      reads this
    {
      At(b.nHeight) == b
    }

    function Next(b: BlockIndex): (r: BlockIndex?)
      reads this
    {
      if Contains(b) then At(b.nHeight + 1) else null
    }

    function Height(): (h: int)
      reads this
    {
      |vChain| - 1
    }

    method SetTip(pindex: BlockIndex?)
      requires Valid() && (pindex != null ==> pindex.Linked())
      modifies this
      ensures Valid() && Tip() == pindex
      ensures pindex != null ==> |vChain| == pindex.nHeight + 1
      ensures pindex != null ==> forall i :: 0 <= i < |vChain| ==> vChain[i] == pindex.Walk(i)
    {
      if pindex == null {
        vChain := [];
        return;
      }
      ghost var before := vChain;
      vChain := Resized(vChain, pindex.nHeight + 1);
      ghost var resized := vChain;
      var cur: BlockIndex? := pindex;
      while cur != null && vChain[cur.nHeight] != cur
        invariant |vChain| == pindex.nHeight + 1
        invariant cur != null ==> cur.Linked() && cur.nHeight <= pindex.nHeight && cur == pindex.Walk(cur.nHeight)
        invariant forall i :: (if cur == null then -1 else cur.nHeight) < i <= pindex.nHeight ==>
          vChain[i] == pindex.Walk(i)
        invariant forall i :: 0 <= i <= (if cur == null then -1 else cur.nHeight) ==> vChain[i] == resized[i]
        decreases if cur == null then 0 else cur.nHeight + 1
      {
        vChain := vChain[cur.nHeight := cur];
        if cur.pprev != null {
          WalkWalk(pindex, cur.nHeight, cur.nHeight - 1);
        }
        cur := cur.pprev;
      }
      if cur != null {
        forall i | 0 <= i <= cur.nHeight
          ensures vChain[i] == pindex.Walk(i)
        {
          ChainWalk(before, cur.nHeight, i);
          WalkWalk(pindex, cur.nHeight, i);
        }
      }
      forall i | 0 <= i < |vChain|
        ensures EntryOk(vChain, i)
      {
        if i > 0 { WalkWalk(pindex, i, i - 1); }
      }
    }
  }

  // The rest of CChain only reads the chain.

  /** A block is in the chain exactly when it is the tip or one of its ancestors. */
  lemma ContainsAncestors(chain: ActiveChain, b: BlockIndex)
    requires chain.Valid() && b.Linked()
    ensures chain.Contains(b) <==>
      var tip := chain.Tip(); tip != null && tip.Linked() && tip.Walk(b.nHeight) == b
    ensures chain.Contains(b) && chain.Next(b) != null ==> chain.Next(b).pprev == b && chain.Contains(chain.Next(b))
    ensures chain.Contains(b) && chain.Next(b) == null ==> b == chain.Tip()
  {
    var v := chain.vChain;
    if b.nHeight < |v| { ChainWalk(v, |v| - 1, b.nHeight); }
    if |v| > 0 { assert EntryOk(v, |v| - 1); }
    if b.nHeight + 1 < |v| { assert EntryOk(v, b.nHeight + 1); }
  }

  /** FindFork: the highest block of the line of pindex that is in the chain. */
  method FindFork(chain: ActiveChain, pindex: BlockIndex?) returns (r: BlockIndex?)
    requires chain.Valid() && (pindex != null ==> pindex.Linked() && pindex.SkipsOk())
    ensures pindex == null ==> r == null
    ensures r != null ==> chain.Contains(r) && pindex.Walk(r.nHeight) == r
    ensures pindex != null ==> forall h :: 0 <= h <= pindex.nHeight && chain.Contains(pindex.Walk(h)) ==>
      r != null && h <= r.nHeight
  {
    if pindex == null {
      return null;
    }
    r := pindex;
    if pindex.nHeight > chain.Height() {
      ghost var steps;
      r, steps := pindex.GetAncestor(chain.Height());
    }
    while r != null && !chain.Contains(r)
      invariant r != null ==> r.Linked() && r.nHeight <= pindex.nHeight && pindex.Walk(r.nHeight) == r
      invariant forall h :: 0 <= h <= pindex.nHeight && chain.Contains(pindex.Walk(h)) ==>
        r != null && h <= r.nHeight
      decreases if r == null then 0 else r.nHeight + 1
    {
      if r.nHeight > 0 { WalkWalk(pindex, r.nHeight, r.nHeight - 1); }
      r := r.pprev;
    }
  }

  /** LastCommonAncestor: the highest block on both lines; null, without failing, if the lines have none. */
  method LastCommonAncestor(a: BlockIndex, b: BlockIndex) returns (r: BlockIndex?)
    requires a.Linked() && a.SkipsOk() && b.Linked() && b.SkipsOk()
    ensures r != null ==> a.Walk(r.nHeight) == r == b.Walk(r.nHeight)
    ensures forall h :: 0 <= h <= a.nHeight && h <= b.nHeight && a.Walk(h) == b.Walk(h) ==>
      r != null && h <= r.nHeight
  {
    var pa: BlockIndex?, pb: BlockIndex? := a, b;
    if pa.nHeight > pb.nHeight {
      ghost var steps;
      pa, steps := pa.GetAncestor(pb.nHeight);
    } else if pb.nHeight > pa.nHeight {
      ghost var steps;
      pb, steps := pb.GetAncestor(pa.nHeight);
    }
    while pa != pb && pa != null && pb != null
      invariant pa == null <==> pb == null
      invariant pa != null ==> pa.nHeight == pb.nHeight && pa.nHeight <= a.nHeight && pa.nHeight <= b.nHeight
      invariant pa != null ==> pa.Linked() && pb.Linked() && a.Walk(pa.nHeight) == pa && b.Walk(pb.nHeight) == pb
      invariant forall h :: 0 <= h <= a.nHeight && h <= b.nHeight && a.Walk(h) == b.Walk(h) ==>
        pa != null && h <= pa.nHeight
      decreases if pa == null then 0 else pa.nHeight + 1
    {
      if pa.nHeight > 0 {
        WalkWalk(a, pa.nHeight, pa.nHeight - 1);
        WalkWalk(b, pb.nHeight, pb.nHeight - 1);
      }
      pa := pa.pprev;
      pb := pb.pprev;
    }
    assert pa == pb;
    return pa;
  }

  /** The highest start of a locator for which the step stays within a 32-bit int. */
  const MAX_START: nat := 0x4000_0009

  /** The heights of a locator that starts at height h, given the step and the entries already made. */
  function LocatorHeights(h: nat, step: nat, size: nat): (s: seq<nat>)
    requires step >= 1
    ensures |s| >= 1 && s[0] == h
  {
    if h == 0 then [0]
    else [h] + LocatorHeights(StepBack(h, step), if size + 1 > 10 then step * 2 else step, size + 1)
  }

  function StepBack(h: nat, step: nat): (k: nat)
    ensures k <= h && (h > 0 && step > 0 ==> k < h)
  {
    if h > step then h - step else 0
  }

  /** Strictly descending, down to genesis. */
  lemma {:induction false} LocatorDescends(h: nat, step: nat, size: nat, i: nat)
    requires step >= 1
    requires i < |LocatorHeights(h, step, size)|
    ensures
      var s := LocatorHeights(h, step, size);
      && s[i] <= h
      && s[|s| - 1] == 0
      && (i + 1 < |s| ==> s[i] > s[i + 1])
    decreases h
  {
    if h > 0 {
      var k, step', size' := StepBack(h, step), if size + 1 > 10 then step * 2 else step, size + 1;
      LocatorDescends(k, step', size', if i == 0 then 0 else i - 1);
    }
  }

  /** Once the step doubles each time, the heights left behind grow as fast as the step. */
  lemma {:induction false} LocatorTail(h: nat, step: nat, size: nat)
    requires step >= 1 && size >= 10
    ensures var n := |LocatorHeights(h, step, size)|; n >= 2 ==> h > step * (Pow2(n - 2) - 1)
    decreases h
  {
    if h > 0 {
      var k := StepBack(h, step);
      LocatorTail(k, step * 2, size + 1);
      var m := |LocatorHeights(k, step * 2, size + 1)|;
      if m >= 2 {
        var p := Pow2(m - 2);
        assert Pow2(m - 1) == 2 * p;
        assert step * 2 * (p - 1) == step * (2 * p - 2);
        assert step * (2 * p - 1) == step * (2 * p - 2) + step;
      }
    }
  }

  /** The first ten entries go back one block each. */
  lemma {:induction false} LocatorHead(h: nat, size: nat)
    requires size <= 10
    ensures
      var n := |LocatorHeights(h, 1, size)|;
      n >= 12 - size ==> h >= Pow2(n - (12 - size)) + (10 - size)
    decreases 10 - size
  {
    if size == 10 {
      LocatorTail(h, 1, 10);
    } else if h > 0 {
      LocatorHead(h - 1, size + 1);
    }
  }

  /** A locator has only logarithmically many entries. */
  lemma LocatorShort(h: nat)
    ensures var n := |LocatorHeights(h, 1, 0)|; n >= 12 ==> Pow2(n - 12) + 10 <= h
    ensures h <= MAX_START ==> |LocatorHeights(h, 1, 0)| <= 41
  {
    LocatorHead(h, 0);
    var n := |LocatorHeights(h, 1, 0)|;
    if n >= 42 {
      Pow2Mono(30, n - 12);
      Pow2Is32();
      Pow2Add(30, 2);
    }
  }

  /**
  GetLocator: hashes of ancestors of the start, or of the tip, at the locator heights.  `overflow` tells that the
  step left the range of a 32-bit int, where the program has no defined behaviour.
  */
  method GetLocator(chain: ActiveChain, start: BlockIndex?) returns (vHave: seq<int>, overflow: bool)
    requires chain.Valid() && (start != null ==> start.Linked() && start.SkipsOk())
    ensures start != null ==> (overflow <==> start.nHeight > MAX_START)
    ensures start == null ==> (overflow <==> chain.Height() > MAX_START)
    ensures start != null && !overflow ==> IsLocator(vHave, start)
    ensures start == null && chain.Tip() != null && !overflow ==> chain.Tip().Linked() && IsLocator(vHave, chain.Tip())
    ensures start == null && chain.Tip() == null ==> vHave == []
  {
    var pindex := start;
    if pindex == null {
      pindex := chain.Tip();
    }
    if pindex == null {
      assert |chain.vChain| > 0 ==> EntryOk(chain.vChain, |chain.vChain| - 1);
      return [], false;
    }
    if start == null { assert EntryOk(chain.vChain, |chain.vChain| - 1); }
    vHave, overflow := LocatorFrom(chain, pindex);
  }

  /** The ancestor at a height, looked up in the chain if the block is in it and searched for otherwise. */
  method BackTo(chain: ActiveChain, pindex: BlockIndex, height: nat) returns (r: BlockIndex)
    requires chain.Valid() && pindex.Linked() && height <= pindex.nHeight
    requires chain.Contains(pindex) || pindex.SkipsOk()
    ensures r == pindex.Walk(height) && (chain.Contains(r) || r.SkipsOk())
  {
    WalkLine(pindex, height);
    if chain.Contains(pindex) {
      ChainWalk(chain.vChain, pindex.nHeight, height);
      r := chain.At(height);
    } else {
      ghost var steps;
      r, steps := pindex.GetAncestor(height);
    }
  }

  /** The loop of GetLocator. */
  method LocatorFrom(chain: ActiveChain, from: BlockIndex) returns (vHave: seq<int>, overflow: bool)
    requires chain.Valid() && from.Linked()
    requires chain.Contains(from) || from.SkipsOk()
    ensures overflow <==> from.nHeight > MAX_START
    ensures !overflow ==> IsLocator(vHave, from)
  {
    hide LocatorHeights, StepBound, Listed;
    overflow := false;
    vHave := [];
    var nStep := 1;
    var pindex: BlockIndex := from;
    ghost var done: seq<nat> := [];
    StepStarts(from.nHeight);
    ListedNone(from);
    while true
      invariant pindex.Linked() && pindex.nHeight <= from.nHeight && pindex == from.Walk(pindex.nHeight)
      invariant chain.Contains(pindex) || pindex.SkipsOk()
      invariant !overflow && 1 <= nStep <= 0x4000_0000 && StepBound(from.nHeight, pindex.nHeight, nStep, |vHave|)
      invariant Listed(vHave, from, done)
      invariant done + LocatorHeights(pindex.nHeight, nStep, |vHave|) == LocatorHeights(from.nHeight, 1, 0)
      decreases pindex.nHeight
    {
      LocatorUnfold(pindex.nHeight, nStep, |vHave|);
      StepFits(from.nHeight, pindex.nHeight, nStep, |vHave|);
      ListedNext(vHave, from, done, pindex);
      vHave := vHave + [pindex.hash];
      done := done + [pindex.nHeight];
      if pindex.nHeight == 0 {
        break;
      }
      var nHeight := StepBack(pindex.nHeight, nStep);
      WalkWalk(from, pindex.nHeight, nHeight);
      pindex := BackTo(chain, pindex, nHeight);
      if |vHave| > 10 {
        if nStep * 2 >= 0x8000_0000 {
          return vHave, true;
        }
        nStep := nStep * 2;
      }
    }
  }

  lemma ListedNone(from: BlockIndex)
    requires from.Linked()
    ensures Listed([], from, [])
  {}

  lemma ListedNext(vHave: seq<int>, from: BlockIndex, s: seq<nat>, b: BlockIndex)
    requires from.Linked() && Listed(vHave, from, s) && b.nHeight <= from.nHeight && b == from.Walk(b.nHeight)
    ensures Listed(vHave + [b.hash], from, s + [b.nHeight]) && |vHave| == |s|
  {}

  lemma LocatorUnfold(h: nat, step: nat, size: nat)
    requires step >= 1
    ensures LocatorHeights(h, step, size) ==
      if h == 0 then [0]
      else [h] + LocatorHeights(StepBack(h, step), if size + 1 > 10 then step * 2 else step, size + 1)
  {}

  /** vHave lists the hashes of the ancestors of from at the locator heights. */
  ghost predicate IsLocator(vHave: seq<int>, from: BlockIndex)
    requires from.Linked()
  {
    Listed(vHave, from, LocatorHeights(from.nHeight, 1, 0))
  }

  ghost predicate Listed(vHave: seq<int>, from: BlockIndex, s: seq<nat>)
    requires from.Linked()
  {
    |vHave| == |s| && forall i :: 0 <= i < |s| ==> s[i] <= from.nHeight && vHave[i] == from.Walk(s[i]).hash
  }

  /** How far the walk has come, which is what the step measures. */
  ghost predicate StepBound(top: nat, h: nat, step: nat, size: nat) {
    && h <= top && step >= 1
    && (size <= 10 ==> step == 1 && top - h == size)
    && (size > 10 ==> step == Pow2(size - 10) && top <= h + 9 + step && (h > 0 ==> top == h + 9 + step))
  }

  lemma PowerBelow(k: nat)
    ensures Pow2(k) < 0x8000_0000 ==> Pow2(k) <= 0x4000_0000
  {
    hide Pow2;
    Pow2Is32();
    Pow2Add(30, 2);
    Pow2Add(31, 1);
    Pow2Small();
    if k <= 30 {
      Pow2Mono(k, 30);
    } else {
      Pow2Mono(31, k);
    }
  }

  lemma Pow2Small()
    ensures Pow2(1) == 2 && Pow2(2) == 4
  {
    assert Pow2(0) == 1;
  }

  lemma StepStarts(top: nat)
    ensures StepBound(top, top, 1, 0)
  {}

  /** One entry further: the step doubles beyond 32 bits exactly when the start was too high. */
  lemma StepFits(top: nat, h: nat, step: nat, size: nat)
    requires StepBound(top, h, step, size) && step <= 0x4000_0000
    ensures h == 0 ==> top <= MAX_START
    ensures h > 0 && size + 1 > 10 && step * 2 >= 0x8000_0000 ==> top > MAX_START
    ensures step * 2 < 0x8000_0000 ==> step * 2 <= 0x4000_0000
    ensures h > 0 ==>
      StepBound(top, StepBack(h, step), if size + 1 > 10 then step * 2 else step, size + 1)
  {
    if size > 10 {
      assert Pow2(size + 1 - 10) == 2 * Pow2(size - 10);
      PowerBelow(size - 9);
    } else if size == 10 {
      assert Pow2(1) == 2 * Pow2(0);
    }
  }

  ghost predicate EntryOk(chain: seq<BlockIndex?>, i: nat)
    requires i < |chain|
  {
    && chain[i] != null && chain[i].Linked() && chain[i].nHeight == i
    && (i > 0 ==> chain[i].pprev == chain[i - 1])
  }

  /** std::vector::resize, which fills up with null pointers. */
  function Resized(s: seq<BlockIndex?>, n: nat): (t: seq<BlockIndex?>)
    ensures |t| == n
    ensures forall i :: 0 <= i < n ==> t[i] == if i < |s| then s[i] else null
  {
    if n <= |s| then s[..n] else s + seq(n - |s|, _ => null)
  }

  /** Lower entries are the ancestors of higher ones. */
  lemma {:induction false} ChainWalk(chain: seq<BlockIndex?>, h: nat, i: nat)
    requires (forall j :: 0 <= j < |chain| ==> EntryOk(chain, j)) && i <= h < |chain|
    ensures chain[h] != null && chain[h].Linked() && chain[h].Walk(i) == chain[i]
    decreases h
  {
    assert EntryOk(chain, h);
    if i < h { ChainWalk(chain, h - 1, i); }
  }
}
