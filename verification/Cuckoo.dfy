/**
The cuckoo cache of src/cuckoocache.h: a fixed table in which an element may sit at eight places,
with lazily collected garbage and two generations ("epochs") of live entries.
*/
module Cuckoo {
  import opened Common
  import opened Numbers

  // ---------- bit_packed_atomic_flags ----------

  function Mask(k: nat): bv8
    requires k < 8
  {
    1 << k
  }

  /** Setting or clearing a bit of a byte leaves the other seven alone. */
  lemma MaskBits(x: bv8, j: nat, k: nat)
    requires j < 8 && k < 8
    ensures ((x | Mask(j)) & Mask(k) != 0) == (j == k || x & Mask(k) != 0)
    ensures ((x & !Mask(j)) & Mask(k) != 0) == (j != k && x & Mask(k) != 0)
  {
    MaskValue(j);
    MaskValue(k);
  }

  lemma MaskValue(k: nat)
    requires k < 8
    ensures Mask(k) == if k == 0 then 1 else if k == 1 then 2 else if k == 2 then 4 else if k == 3 then 8
                       else if k == 4 then 16 else if k == 5 then 32 else if k == 6 then 64 else 128
  {}

  function BitAt(mem: seq<bv8>, s: nat): bool
    requires s / 8 < |mem|
  {
    mem[s / 8] & Mask(s % 8) != 0
  }

  /** The flags as booleans, one per entry. */
  function Bits(mem: seq<bv8>, size: nat): (bits: seq<bool>)
    requires size <= 8 * |mem|
    ensures |bits| == size && forall i :: 0 <= i < size ==> bits[i] == BitAt(mem, i)
  {
    seq(size, i requires 0 <= i < size => BitAt(mem, i))
  }

  lemma BitsSet(mem: seq<bv8>, size: nat, s: nat)
    requires s < size <= 8 * |mem|
    ensures Bits(mem[s / 8 := mem[s / 8] | Mask(s % 8)], size) == Bits(mem, size)[s := true]
  {
    hide Mask;
    var mem' := mem[s / 8 := mem[s / 8] | Mask(s % 8)];
    forall i | 0 <= i < size ensures BitAt(mem', i) == (i == s || BitAt(mem, i)) {
      if i / 8 == s / 8 {
        MaskBits(mem[s / 8], s % 8, i % 8);
      } else {
        assert mem'[i / 8] == mem[i / 8];
      }
    }
  }

  lemma BitsUnset(mem: seq<bv8>, size: nat, s: nat)
    requires s < size <= 8 * |mem|
    ensures Bits(mem[s / 8 := mem[s / 8] & !Mask(s % 8)], size) == Bits(mem, size)[s := false]
  {
    hide Mask;
    var mem' := mem[s / 8 := mem[s / 8] & !Mask(s % 8)];
    assert |mem'| == |mem|;
    forall i | 0 <= i < size ensures BitAt(mem', i) == (i != s && BitAt(mem, i)) {
      if i / 8 == s / 8 {
        MaskBits(mem[s / 8], s % 8, i % 8);
      } else {
        assert mem'[i / 8] == mem[i / 8];
      }
    }
  }

  /** The largest number of flags for which rounding up to bytes does not wrap around in 32 bits. */
  const MAX_FLAGS: nat := 0xFFFF_FFF8

  function FlagBytes(size: uint32): nat {
    (size + 7) % 0x1_0000_0000 / 8
  }

  /** The memory suffices, with all flags set, exactly up to that number. */
  lemma BitsFull(size: uint32)
    ensures var mem := seq(FlagBytes(size), i => 0xFF);
            && (size <= 8 * |mem| <==> size <= MAX_FLAGS)
            && (size <= MAX_FLAGS ==> Bits(mem, size) == seq(size, i => true))
  {
    var mem: seq<bv8> := seq(FlagBytes(size), i => 0xFF);
    if size <= MAX_FLAGS {
      forall i | 0 <= i < size ensures BitAt(mem, i) {
        MaskValue(i % 8);
      }
    }
  }

  class BitFlags {
    var mem: seq<bv8>

    constructor ()
    {
      mem := [];
    }

    /** Room for `size` flags, all set, unless the number of bytes wraps around. */
    method Setup(size: uint32)
      modifies this
      ensures size <= 8 * |mem| <==> size <= MAX_FLAGS
      ensures size <= MAX_FLAGS ==> Bits(mem, size) == seq(size, i => true)
    {
      BitsFull(size);
      mem := seq(FlagBytes(size), i => 0xFF);
    }

    method Set(s: nat, ghost size: nat)
      requires s < size <= 8 * |mem|
      modifies this
      ensures |mem| == |old(mem)| && Bits(mem, size) == Bits(old(mem), size)[s := true]
    {
      BitsSet(mem, size, s);
      mem := mem[s / 8 := mem[s / 8] | Mask(s % 8)];
    }

    method Unset(s: nat, ghost size: nat)
      requires s < size <= 8 * |mem|
      modifies this
      ensures |mem| == |old(mem)| && Bits(mem, size) == Bits(old(mem), size)[s := false]
    {
      BitsUnset(mem, size, s);
      mem := mem[s / 8 := mem[s / 8] & !Mask(s % 8)];
    }
  }

  // ---------- the table as a value ----------

  /** The non-filler elements that are not garbage. */
  ghost function Live<E(!new)>(table: seq<E>, dead: seq<bool>, filler: E): (live: set<E>)
    requires |table| == |dead|
    ensures forall x :: x in live <==> x != filler && exists i :: 0 <= i < |table| && !dead[i] && table[i] == x
  {
    set i | 0 <= i < |table| && !dead[i] && table[i] != filler :: table[i]
  }

  /** The live slots of one epoch. */
  ghost function Members(dead: seq<bool>, epochs: seq<bool>, epoch: bool): (slots: set<int>)
    requires |dead| == |epochs|
    ensures forall i :: i in slots <==> 0 <= i < |dead| && !dead[i] && epochs[i] == epoch
  {
    set i | 0 <= i < |dead| && !dead[i] && epochs[i] == epoch
  }

  /** Apart from the filler, no element occupies two slots. */
  ghost predicate Unique<E>(table: seq<E>, filler: E) {
    forall i, j :: 0 <= i < j < |table| && table[i] == table[j] ==> table[i] == filler
  }

  /** Filling slot p, with or without reviving it, changes the epoch counts by that slot alone. */
  lemma MembersSet(dead: seq<bool>, epochs: seq<bool>, p: nat, dead': bool, epoch': bool, epoch: bool)
    requires |dead| == |epochs| && p < |dead|
    ensures |Members(dead[p := dead'], epochs[p := epoch'], epoch)| ==
            |Members(dead, epochs, epoch)| + (if !dead' && epoch' == epoch then 1 else 0)
            - (if !dead[p] && epochs[p] == epoch then 1 else 0)
  {
    var before, after := Members(dead, epochs, epoch), Members(dead[p := dead'], epochs[p := epoch'], epoch);
    var rest := before - {p as int};
    forall i ensures i in after <==> i in rest || (i == p && !dead' && epoch' == epoch) {}
    SizeWith(rest, before, p);
    SizeWith(rest, after, p);
  }

  lemma SizeWith(rest: set<int>, whole: set<int>, p: int)
    requires p !in rest && forall i :: i != p ==> (i in rest <==> i in whole)
    ensures |whole| == |rest| + (if p in whole then 1 else 0)
  {
    if p in whole {
      forall i ensures i in whole <==> i in rest + {p} {}
      assert whole == rest + {p};
    } else {
      forall i ensures i in whole <==> i in rest {}
      assert whole == rest;
    }
  }

  lemma LiveStore<E(!new)>(table: seq<E>, dead: seq<bool>, filler: E, p: nat, x: E)
    requires |table| == |dead| && p < |dead| && Unique(table, filler)
    ensures Live(table[p := x], dead[p := false], filler) ==
            Live(table, dead, filler) - (if dead[p] then {} else {table[p]}) + ({x} - {filler})
  {
    var before, after := Live(table, dead, filler), Live(table[p := x], dead[p := false], filler);
    forall y ensures y in after <==> y in before - (if dead[p] then {} else {table[p]}) + ({x} - {filler}) {
      if y in before && y != table[p] {
        var i :| 0 <= i < |table| && !dead[i] && table[i] == y;
        assert table[p := x][i] == y;
      }
      if y in before && dead[p] {
        var i :| 0 <= i < |table| && !dead[i] && table[i] == y;
        assert table[p := x][i] == y;
      }
      if y == x && x != filler {
        assert table[p := x][p] == x;
      }
      if y in after && y != x {
        var i :| 0 <= i < |table| && !dead[p := false][i] && table[p := x][i] == y;
        assert table[i] == y && !dead[i];
      }
    }
  }

  lemma LiveKill<E(!new)>(table: seq<E>, dead: seq<bool>, filler: E, p: nat)
    requires |table| == |dead| && p < |dead| && Unique(table, filler)
    ensures Live(table, dead[p := true], filler) == Live(table, dead, filler) - {table[p]}
  {
    var before, after := Live(table, dead, filler), Live(table, dead[p := true], filler);
    forall y ensures y in after <==> y in before && y != table[p] {
      if y in before && y != table[p] {
        var i :| 0 <= i < |table| && !dead[i] && table[i] == y;
        assert !dead[p := true][i];
      }
    }
  }

  // ---------- the places of an element ----------

  /** Maps a 32-bit hash onto [0, size) with one multiplication and a shift; the product fits 64 bits. */
  function Scale(h: uint32, size: uint32): (loc: nat)
    requires size > 0
    ensures loc < size
  {
    MulMono(size, h, 0x1_0000_0000 - 1);
    h * size / 0x1_0000_0000
  }

  function Locs<E>(hash: (nat, E) -> uint32, size: uint32, e: E): (locs: seq<nat>)
    requires size > 0
    ensures |locs| == 8 && forall k :: 0 <= k < 8 ==> locs[k] < size
  {
    [Scale(hash(0, e), size), Scale(hash(1, e), size), Scale(hash(2, e), size), Scale(hash(3, e), size),
     Scale(hash(4, e), size), Scale(hash(5, e), size), Scale(hash(6, e), size), Scale(hash(7, e), size)]
  }

  /** Live entries, and any entry that is not the filler, sit at one of their places. */
  ghost predicate Placed<E>(hash: (nat, E) -> uint32, size: uint32, table: seq<E>, dead: seq<bool>, filler: E)
    requires size > 0 && |table| == |dead|
  {
    forall i :: 0 <= i < |table| && (!dead[i] || table[i] != filler) ==> i in Locs(hash, size, table[i])
  }

  /** The first index of `loc`, or 8. */
  function IndexIn(locs: seq<nat>, loc: int): (k: nat)
    ensures k <= |locs| && (k < |locs| ==> locs[k] == loc)
    ensures k == |locs| ==> loc !in locs
  {
    if locs == [] then 0 else if locs[0] == loc then 0 else 1 + IndexIn(locs[1..], loc)
  }

  /** Where the next displaced element is taken from: the place after the last one. */
  function NextLoc(locs: seq<nat>, last: int): (loc: nat)
    requires |locs| == 8
    ensures loc in locs
  {
    locs[(1 + IndexIn(locs, last)) % 8]
  }

  /** The first displacement takes the second place, and later ones go round; 0xFFFF_FFFF is never a place. */
  lemma DisplacementOrder(locs: seq<nat>, k: nat)
    requires |locs| == 8 && k < 8 && forall j :: 0 <= j < k ==> locs[j] != locs[k]
    requires forall j :: 0 <= j < 8 ==> locs[j] < 0xFFFF_FFFF
    ensures NextLoc(locs, 0xFFFF_FFFF) == locs[1]
    ensures NextLoc(locs, locs[k]) == locs[(k + 1) % 8]
  {
    IndexFirst(locs, k);
    assert 0xFFFF_FFFF !in locs;
  }

  lemma {:induction false} IndexFirst(locs: seq<nat>, k: nat)
    requires k < |locs| && forall j :: 0 <= j < k ==> locs[j] != locs[k]
    ensures IndexIn(locs, locs[k]) == k
  {
    if k > 0 {
      IndexFirst(locs[1..], k - 1);
    }
  }

  function Max(a: nat, b: nat): nat {
    if a >= b then a else b
  }

  /** 45 percent of the slots, computed in 32 bits, but at least one. */
  function EpochSize(size: uint32): nat {
    var e := (45 * size) % 0x1_0000_0000 / 100;
    if e < 1 then 1 else e
  }

  /** The bound on the live entries of one epoch. */
  function EpochBound(epochSize: nat): nat {
    epochSize + Max(1, epochSize / 16)
  }

  // ---------- ageing ----------

  ghost function Aged(dead: seq<bool>, epochs: seq<bool>): (dead': seq<bool>)
    requires |dead| == |epochs|
  {
    seq(|dead|, i requires 0 <= i < |dead| => dead[i] || !epochs[i])
  }

  /** The live elements of the current epoch: those that ageing keeps. */
  ghost function Young<E(!new)>(table: seq<E>, dead: seq<bool>, epochs: seq<bool>, filler: E): set<E>
    requires |table| == |dead| == |epochs|
  {
    Live(table, Aged(dead, epochs), filler)
  }

  lemma YoungStore<E(!new)>(table: seq<E>, dead: seq<bool>, epochs: seq<bool>, filler: E, p: nat, x: E, epoch: bool)
    requires |table| == |dead| == |epochs| && p < |dead| && Unique(table, filler)
    ensures Young(table[p := x], dead[p := false], epochs[p := epoch], filler) ==
            Young(table, dead, epochs, filler) - (if dead[p] || !epochs[p] then {} else {table[p]})
            + (if epoch then {x} - {filler} else {})
  {
    hide Live, Unique;
    var masked := Aged(dead, epochs);
    assert Aged(dead[p := false], epochs[p := epoch]) == masked[p := !epoch];
    if epoch {
      LiveStore(table, masked, filler, p, x);
    } else {
      LiveKill(table, masked, filler, p);
      LiveHidden(table, masked, filler, p, x);
    }
  }

  /** What a dead slot holds does not matter. */
  lemma LiveHidden<E(!new)>(table: seq<E>, dead: seq<bool>, filler: E, p: nat, x: E)
    requires |table| == |dead| && p < |dead| && Unique(table, filler)
    ensures Live(table[p := x], dead[p := true], filler) == Live(table, dead[p := true], filler)
    ensures dead[p] ==> dead[p := true] == dead
  {
    var before, after := Live(table, dead[p := true], filler), Live(table[p := x], dead[p := true], filler);
    forall y ensures y in after <==> y in before {
      if y in before {
        var i :| 0 <= i < |table| && !dead[p := true][i] && table[i] == y;
        assert table[p := x][i] == y;
      }
      if y in after {
        var i :| 0 <= i < |table| && !dead[p := true][i] && table[p := x][i] == y;
        assert table[i] == y;
      }
    }
  }

  lemma YoungKill<E(!new)>(table: seq<E>, dead: seq<bool>, epochs: seq<bool>, filler: E, p: nat)
    requires |table| == |dead| == |epochs| && p < |dead| && Unique(table, filler)
    ensures Young(table, dead[p := true], epochs, filler) == Young(table, dead, epochs, filler) - {table[p]}
  {
    hide Live, Unique;
    assert Aged(dead[p := true], epochs) == Aged(dead, epochs)[p := true];
    LiveKill(table, Aged(dead, epochs), filler, p);
  }

  /** After ageing nothing is young. */
  lemma AgedYoung<E(!new)>(table: seq<E>, dead: seq<bool>, epochs: seq<bool>, filler: E)
    requires |table| == |dead| == |epochs|
    ensures Young(table, Aged(dead, epochs), seq(|epochs|, i => false), filler) == {}
  {
    AllDead(table, Aged(Aged(dead, epochs), seq(|epochs|, i => false)), epochs, filler);
  }

  lemma YoungLive<E(!new)>(table: seq<E>, dead: seq<bool>, epochs: seq<bool>, filler: E)
    requires |table| == |dead| == |epochs|
    ensures Young(table, dead, epochs, filler) <= Live(table, dead, filler)
  {
    forall x | x in Young(table, dead, epochs, filler) ensures x in Live(table, dead, filler) {
      var i :| 0 <= i < |table| && !Aged(dead, epochs)[i] && table[i] == x;
      assert !dead[i];
    }
  }

  /** Ageing turns the current epoch into the old one and discards the old one. */
  lemma AgedDead(dead: seq<bool>, epochs: seq<bool>)
    requires |dead| == |epochs|
    ensures forall i :: 0 <= i < |dead| && dead[i] ==> Aged(dead, epochs)[i]
  {}

  /** Some place of the element holds garbage. */
  ghost predicate HasRoom(locs: seq<nat>, dead: seq<bool>) {
    exists k :: 0 <= k < |locs| && locs[k] < |dead| && dead[locs[k]]
  }

  lemma RoomStays(locs: seq<nat>, dead: seq<bool>, dead': seq<bool>)
    requires |dead| == |dead'| && forall i :: 0 <= i < |dead| && dead[i] ==> dead'[i]
    ensures HasRoom(locs, dead) ==> HasRoom(locs, dead')
  {}

  lemma AgedMembers(dead: seq<bool>, epochs: seq<bool>)
    requires |dead| == |epochs|
    ensures var none := seq(|dead|, i => false);
            && |Members(Aged(dead, epochs), none, true)| == 0
            && |Members(Aged(dead, epochs), none, false)| == |Members(dead, epochs, true)|
  {
    var none := seq(|dead|, i => false);
    forall i ensures i !in Members(Aged(dead, epochs), none, true) {}
    assert Members(Aged(dead, epochs), none, true) == {};
    forall i ensures i in Members(Aged(dead, epochs), none, false) <==> i in Members(dead, epochs, true) {}
    assert Members(Aged(dead, epochs), none, false) == Members(dead, epochs, true);
  }

  lemma AgedTable<E(!new)>(hash: (nat, E) -> uint32, size: uint32, table: seq<E>, dead: seq<bool>, epochs: seq<bool>, filler: E)
    requires size > 0 && |table| == |dead| == |epochs|
    ensures Live(table, Aged(dead, epochs), filler) <= Live(table, dead, filler)
    ensures Placed(hash, size, table, dead, filler) ==> Placed(hash, size, table, Aged(dead, epochs), filler)
  {
    forall x | x in Live(table, Aged(dead, epochs), filler) ensures x in Live(table, dead, filler) {
      var i :| 0 <= i < |table| && !Aged(dead, epochs)[i] && table[i] == x;
      assert !dead[i];
    }
  }

  /** `x` may be stored at p without creating a second copy. */
  ghost predicate Storable<E>(table: seq<E>, p: nat, x: E, filler: E) {
    x == filler || forall i :: 0 <= i < |table| && i != p ==> table[i] != x
  }

  lemma UniqueSet<E>(table: seq<E>, filler: E, p: nat, x: E)
    requires Unique(table, filler) && p < |table| && Storable(table, p, x, filler)
    ensures Unique(table[p := x], filler)
  {}

  /** The element swapped out of the table is no longer in it. */
  lemma SwappedOut<E>(table: seq<E>, filler: E, p: nat, x: E)
    requires Unique(table, filler) && p < |table| && (x == filler || x !in table)
    ensures table[p] == filler || table[p] !in table[p := x]
  {
    var t' := table[p := x];
    forall i | 0 <= i < |t'| && table[p] != filler ensures t'[i] != table[p] {
      assert i != p ==> t'[i] == table[i];
    }
  }

  lemma PlacedSet<E>(hash: (nat, E) -> uint32, size: uint32, table: seq<E>, dead: seq<bool>, filler: E, p: nat, x: E)
    requires size > 0 && |table| == |dead| && p < |table|
    requires Placed(hash, size, table, dead, filler) && p in Locs(hash, size, x)
    ensures Placed(hash, size, table[p := x], dead[p := false], filler)
  {}

  /** An element that is not the filler is in the table exactly when it is at one of its places. */
  lemma FoundIfPresent<E>(hash: (nat, E) -> uint32, size: uint32, table: seq<E>, dead: seq<bool>, filler: E, e: E)
    requires 0 < size == |table| == |dead| && Placed(hash, size, table, dead, filler)
    requires forall k :: 0 <= k < 8 ==> table[Locs(hash, size, e)[k]] != e
    ensures e == filler || e !in table
    ensures forall i :: 0 <= i < |table| && !dead[i] ==> table[i] != e
  {
  }

  lemma LiveInTable<E(!new)>(table: seq<E>, dead: seq<bool>, filler: E, x: E)
    requires |table| == |dead| && (x == filler || x !in table)
    ensures x !in Live(table, dead, filler)
  {}

  lemma AtSlot<E(!new)>(table: seq<E>, dead: seq<bool>, epochs: seq<bool>, filler: E, p: nat)
    requires |table| == |dead| == |epochs| && p < |table|
    ensures filler !in Live(table, dead, filler) && filler !in Young(table, dead, epochs, filler)
    ensures !dead[p] ==> table[p] == filler || table[p] in Live(table, dead, filler)
    ensures !dead[p] && epochs[p] ==> table[p] == filler || table[p] in Young(table, dead, epochs, filler)
  {
    assert !dead[p] && epochs[p] ==> !Aged(dead, epochs)[p];
  }

  /** A set together with the element in hand, if that counts. */
  ghost function Carried<E>(s: set<E>, x: E, filler: E, counts: bool): set<E> {
    s + if counts then {x} - {filler} else {}
  }

  /** Taking `y` out and putting `x` in, seen from the other side. */
  lemma SwapSets<E>(before: set<E>, after: set<E>, x: E, y: E, filler: E, counts: bool, taken: bool)
    requires filler !in before && (taken ==> y == filler || y in before)
    requires after == before - (if taken then {y} else {}) + if counts then {x} - {filler} else {}
    ensures Carried(after, y, filler, taken) == Carried(before, x, filler, counts)
  {}

  lemma CarriedStored<E>(before: set<E>, after: set<E>, x: E, filler: E, counts: bool)
    requires after == before - {} + (if counts then {x} - {filler} else {})
    ensures after == Carried(before, x, filler, counts) - {}
  {}

  lemma CarriedIs<E>(s: set<E>, x: E, filler: E)
    ensures Carried(s, x, filler, true) == s + ({x} - {filler})
  {}

  /** Storing an element over itself. */
  lemma CarriedOver<E>(before: set<E>, after: set<E>, x: E, filler: E, gone: set<E>)
    requires filler !in before && gone <= {x} && after == before - gone + ({x} - {filler})
    ensures after == before + ({x} - {filler}) - {}
  {}

  /** What is lost when `x` is left without a slot. */
  ghost function Lost<E>(x: E, filler: E): set<E> {
    {x} - {filler}
  }

  lemma LostSound<E>(young: set<E>, live: set<E>, x: E, filler: E, current: bool, goal: set<E>, goalYoung: set<E>)
    requires Carried(live, x, filler, true) == goal && Carried(young, x, filler, current) == goalYoung
    requires young <= live && (x == filler || x !in live)
    ensures |Lost(x, filler)| <= 1 && live == goal - Lost(x, filler) && young == goalYoung - Lost(x, filler)
  {
    if x == filler {
      assert Lost(x, filler) == {};
    } else {
      assert Lost(x, filler) == {x};
    }
  }

  // ---------- what the operations do to the slots ----------

  /** The slots: what each holds, which are garbage, and which belong to the current epoch. */
  datatype Slots<E> = Slots(table: seq<E>, dead: seq<bool>, epochs: seq<bool>)
  {
    predicate Sized(size: nat) { |table| == |dead| == |epochs| == size }

    function Stored(p: nat, x: E, epoch: bool): Slots<E>
      requires Sized(|table|) && p < |table|
    {
      Slots(table[p := x], dead[p := false], epochs[p := epoch])
    }
  }

  /** What does not change after setup. */
  datatype Shape<!E> = Shape(hash: (nat, E) -> uint32, filler: E, size: uint32, depth: nat, epochSize: nat)

  /** The index of the first place that is garbage, or the number of places. */
  function FirstDead(locs: seq<nat>, dead: seq<bool>): (k: nat)
    requires forall j :: 0 <= j < |locs| ==> locs[j] < |dead|
    ensures k <= |locs| && (k < |locs| ==> dead[locs[k]])
    ensures forall j :: 0 <= j < k ==> !dead[locs[j]]
  {
    if locs == [] then 0 else if dead[locs[0]] then 0 else 1 + FirstDead(locs[1..], dead)
  }

  /** The index of the first place that holds the element, or the number of places. */
  function FirstHolding<E(==)>(locs: seq<nat>, table: seq<E>, e: E): (k: nat)
    requires forall j :: 0 <= j < |locs| ==> locs[j] < |table|
    ensures k <= |locs| && (k < |locs| ==> table[locs[k]] == e)
    ensures forall j :: 0 <= j < k ==> table[locs[j]] != e
  {
    if locs == [] then 0 else if table[locs[0]] == e then 0 else 1 + FirstHolding(locs[1..], table, e)
  }

  /** The displacement chain: into the first garbage place, else on with what the next place held. */
  ghost function Displaced<E>(hash: (nat, E) -> uint32, size: uint32, s: Slots<E>, x: E, last: int, epoch: bool, depth: nat): (r: Slots<E>)
    requires size > 0 && s.Sized(size)
    ensures r.Sized(size)
    decreases depth
  {
    if depth == 0 then s else
      var locs := Locs(hash, size, x);
      var k := FirstDead(locs, s.dead);
      if k < 8 then s.Stored(locs[k], x, epoch)
      else
        var loc := NextLoc(locs, last);
        Displaced(hash, size, s.Stored(loc, x, epoch), s.table[loc], loc, s.epochs[loc], depth - 1)
  }

  /** The epoch check: the slots and the counter after it. */
  ghost function Checked<E>(s: Slots<E>, counter: nat, epochSize: nat): (r: (Slots<E>, nat))
    requires s.Sized(|s.table|)
    ensures r.0.Sized(|s.table|)
  {
    var current := |Members(s.dead, s.epochs, true)|;
    if counter > 0 then (s, counter - 1)
    else if current >= epochSize then (Slots(s.table, Aged(s.dead, s.epochs), seq(|s.epochs|, i => false)), epochSize)
    else (s, Max(1, Max(epochSize / 16, epochSize - current)))
  }

  /** Insertion after the epoch check: a known element is kept, another one is placed. */
  ghost function Settled<E>(g: Shape<E>, s: Slots<E>, e: E): (r: Slots<E>)
    requires g.size > 0 && s.Sized(g.size)
    ensures r.Sized(g.size)
  {
    var locs := Locs(g.hash, g.size, e);
    var k := FirstHolding(locs, s.table, e);
    if k < 8 then s.Stored(locs[k], e, true)
    else Displaced(g.hash, g.size, s, e, 0xFFFF_FFFF, true, g.depth)
  }

  lemma DisplacedStep<E>(hash: (nat, E) -> uint32, size: uint32, s: Slots<E>, x: E, last: int, epoch: bool, depth: nat)
    requires size > 0 && s.Sized(size)
    ensures depth == 0 ==> Displaced(hash, size, s, x, last, epoch, depth) == s
    ensures depth > 0 ==>
              var locs := Locs(hash, size, x);
              var k, loc := FirstDead(locs, s.dead), NextLoc(locs, last);
              Displaced(hash, size, s, x, last, epoch, depth) ==
              if k < 8 then s.Stored(locs[k], x, epoch)
              else Displaced(hash, size, s.Stored(loc, x, epoch), s.table[loc], loc, s.epochs[loc], depth - 1)
  {}

  ghost function AfterInsert<E>(g: Shape<E>, e: E, s: Slots<E>, counter: nat): (Slots<E>, nat)
    requires g.size > 0 && s.Sized(g.size)
  {
    var checked := Checked(s, counter, g.epochSize);
    (Settled(g, checked.0, e), checked.1)
  }

  /** A lookup: found exactly if one of the places holds the element. */
  ghost predicate Answer<E>(g: Shape<E>, e: E, s: Slots<E>)
    requires g.size > 0 && s.Sized(g.size)
  {
    FirstHolding(Locs(g.hash, g.size, e), s.table, e) < 8
  }

  ghost function Erased<E>(g: Shape<E>, e: E, erase: bool, s: Slots<E>): Slots<E>
    requires g.size > 0 && s.Sized(g.size)
  {
    var locs := Locs(g.hash, g.size, e);
    if erase && Answer(g, e, s) then s.(dead := s.dead[locs[FirstHolding(locs, s.table, e)] := true]) else s
  }

  /** A cache as seen from outside; `young` are the live elements of the current epoch. */
  datatype Moment<E(!new)> = Moment(slots: Slots<E>, counter: nat, live: set<E>, young: set<E>)

  /** After setup every slot is garbage. */
  ghost function Fresh<E(!new)>(g: Shape<E>): Moment<E> {
    Moment(Slots(seq(g.size, i => g.filler), seq(g.size, i => true), seq(g.size, i => false)), g.epochSize, {}, {})
  }

  class Cache<E(==, !new)> {
    const hash: (nat, E) -> uint32
    const filler: E
    const collectionFlags: BitFlags

    var table: seq<E>
    var size: uint32
    var epochFlags: seq<bool>
    var epochCounter: nat
    var epochSize: nat
    var depthLimit: nat

    /** Everything ever inserted. */
    ghost var inserted: set<E>

    ghost predicate Sized()
      reads this, collectionFlags
    {
      0 < size == |table| == |epochFlags| && size <= 8 * |collectionFlags.mem|
    }

    ghost function Dead(): (dead: seq<bool>)
      requires Sized()
      reads this, collectionFlags
      ensures |dead| == |table|
    {
      Bits(collectionFlags.mem, size)
    }

    /** The table is a proper cuckoo table of inserted elements. */
    ghost predicate TableOk()
      reads this, collectionFlags
    {
      && Sized()
      && Placed(hash, size, table, Dead(), filler)
      && Unique(table, filler)
      && (forall i :: 0 <= i < |table| ==> table[i] == filler || table[i] in inserted)
    }

    ghost function Count(epoch: bool): nat
      requires Sized()
      reads this, collectionFlags
    {
      |Members(Dead(), epochFlags, epoch)|
    }

    /** Neither epoch outgrows its bound, now or after `epochCounter` more insertions. */
    ghost predicate EpochsOk(pending: nat)
      requires Sized()
      reads this, collectionFlags
    {
      && Count(true) + epochCounter + pending <= EpochBound(epochSize)
      && Count(false) <= EpochBound(epochSize)
    }

    ghost predicate Valid()
      reads this, collectionFlags
    {
      TableOk() && EpochsOk(0)
    }

    ghost function LiveSet(): set<E>
      requires Sized()
      reads this, collectionFlags
    {
      Live(table, Dead(), filler)
    }

    ghost function YoungSet(): set<E>
      requires Sized()
      reads this, collectionFlags
    {
      Young(table, Dead(), epochFlags, filler)
    }

    ghost function SlotsNow(): (s: Slots<E>)
      requires Sized()
      reads this, collectionFlags
      ensures s.Sized(size)
    {
      Slots(table, Dead(), epochFlags)
    }

    ghost function Now(): Moment<E>
      requires Sized()
      reads this, collectionFlags
    {
      Moment(SlotsNow(), epochCounter, LiveSet(), YoungSet())
    }

    ghost function ShapeOf(): Shape<E>
      reads this
    {
      Shape(hash, filler, size, depthLimit, epochSize)
    }

    constructor (hash: (nat, E) -> uint32, filler: E)
      ensures this.filler == filler && this.hash == hash && fresh(collectionFlags)
      ensures table == [] && inserted == {}
    {
      this.hash, this.filler := hash, filler;
      collectionFlags := new BitFlags();
      table, size, epochFlags, epochCounter, epochSize, depthLimit := [], 0, [], 0, 0, 0;
      inserted := {};
    }

    /** The first setup; `depth` is the rounded logarithm of the size, computed in floating point. */
    method Setup(newSize: uint32, depth: nat) returns (slots: uint32)
      requires table == [] && inserted == {}
      modifies this, collectionFlags
      ensures slots == size == (if newSize < 2 then 2 else newSize) && depthLimit == depth && inserted == {}
      ensures epochCounter == epochSize == EpochSize(size)
      ensures Valid() <==> size <= MAX_FLAGS
      ensures Valid() ==> Now() == Fresh(ShapeOf())
    {
      hide Live, Members, Bits, FlagBytes;
      depthLimit := depth;
      size := if newSize < 2 then 2 else newSize;
      table := seq(size, i => filler);
      collectionFlags.Setup(size);
      epochFlags := seq(size, i => false);
      epochSize := (45 * size) % 0x1_0000_0000 / 100;
      if epochSize < 1 {
        epochSize := 1;
      }
      epochCounter := epochSize;
      slots := size;
      if size <= MAX_FLAGS {
        AllDead(table, Dead(), epochFlags, filler);
        YoungLive(table, Dead(), epochFlags, filler);
      }
    }

    method Contains(e: E, erase: bool) returns (found: bool)
      requires Valid()
      modifies collectionFlags
      ensures Valid()
      ensures found <==> exists k :: 0 <= k < 8 && table[Locs(hash, size, e)[k]] == e
      ensures e != filler ==> (found <==> e in table)
      ensures e in old(LiveSet()) ==> found
      ensures found && e != filler ==> e in inserted
      ensures LiveSet() == if found && erase then old(LiveSet()) - {e} else old(LiveSet())
      ensures YoungSet() == if found && erase then old(YoungSet()) - {e} else old(YoungSet())
      ensures found == Answer(ShapeOf(), e, old(SlotsNow())) && SlotsNow() == Erased(ShapeOf(), e, erase, old(SlotsNow()))
    {
      hide Scale, Placed, Unique, Locs;
      var p := Find(e);
      found := p < size;
      if found && erase {
        Kill(p);
      }
    }

    /** allow_erase: a slot becomes garbage. */
    method Kill(p: nat)
      requires Sized() && p < size
      modifies collectionFlags
      ensures Sized() && Dead() == old(Dead())[p := true]
      ensures SlotsNow() == old(SlotsNow()).(dead := old(SlotsNow()).dead[p := true])
      ensures old(TableOk()) ==> TableOk() && LiveSet() == old(LiveSet()) - {table[p]}
      ensures old(TableOk()) ==> YoungSet() == old(YoungSet()) - {table[p]}
      ensures forall pending :: old(EpochsOk(pending)) ==> EpochsOk(pending)
    {
      collectionFlags.Set(p, size);
      MembersSet(old(Dead()), epochFlags, p, true, epochFlags[p], true);
      MembersSet(old(Dead()), epochFlags, p, true, epochFlags[p], false);
      assert epochFlags[p := epochFlags[p]] == epochFlags;
      if old(TableOk()) {
        LiveKill(table, old(Dead()), filler, p);
        YoungKill(table, old(Dead()), epochFlags, filler, p);
      }
    }

    /** please_keep with an epoch: slot p holds `x` and counts towards `epoch`. */
    method Keep(p: nat, x: E, epoch: bool)
      requires TableOk() && p < size && p in Locs(hash, size, x) && Storable(table, p, x, filler)
      requires x == filler || x in inserted
      modifies this`table, this`epochFlags, collectionFlags
      ensures TableOk()
      ensures LiveSet() == old(LiveSet()) - (if old(Dead())[p] then {} else {old(table)[p]}) + ({x} - {filler})
      ensures YoungSet() == old(YoungSet()) - (if old(Dead())[p] || !old(epochFlags)[p] then {} else {old(table)[p]})
                            + (if epoch then {x} - {filler} else {})
      ensures forall c :: Count(c) == old(Count(c)) + (if epoch == c then 1 else 0)
                                    - (if !old(Dead())[p] && old(epochFlags)[p] == c then 1 else 0)
      ensures table == old(table)[p := x] && epochFlags == old(epochFlags)[p := epoch]
      ensures Dead() == old(Dead())[p := false] && SlotsNow() == old(SlotsNow()).Stored(p, x, epoch)
    {
      UniqueSet(table, filler, p, x);
      PlacedSet(hash, size, table, Dead(), filler, p, x);
      LiveStore(table, Dead(), filler, p, x);
      YoungStore(table, Dead(), epochFlags, filler, p, x, epoch);
      MembersSet(Dead(), epochFlags, p, false, epoch, true);
      MembersSet(Dead(), epochFlags, p, false, epoch, false);
      table := table[p := x];
      epochFlags := epochFlags[p := epoch];
      collectionFlags.Unset(p, size);
    }

    /** Counts the live entries of the current epoch. */
    method CountCurrent() returns (n: nat)
      requires Sized()
      ensures n == Count(true)
    {
      n := 0;
      ghost var dead := Dead();
      ghost var seen: set<int> := {};
      var i := 0;
      while i < size
        invariant 0 <= i <= size && n == |seen|
        invariant forall j :: j in seen <==> 0 <= j < i && !dead[j] && epochFlags[j]
      {
        if epochFlags[i] && !BitAt(collectionFlags.mem, i) {
          n := n + 1;
          seen := seen + {i};
        }
        i := i + 1;
      }
      forall j ensures j in seen <==> j in Members(dead, epochFlags, true) {}
      assert seen == Members(dead, epochFlags, true);
    }

    /** The ageing loop. */
    method Age()
      requires Sized()
      modifies this`epochFlags, collectionFlags
      ensures Sized() && Dead() == Aged(old(Dead()), old(epochFlags))
      ensures epochFlags == seq(|old(epochFlags)|, i => false)
    {
      ghost var dead0, epochs0 := Dead(), epochFlags;
      var i := 0;
      while i < size
        invariant 0 <= i <= size && Sized() && |epochFlags| == |epochs0|
        invariant forall j :: 0 <= j < size ==> epochFlags[j] == (j >= i && epochs0[j])
        invariant forall j :: 0 <= j < size ==> Dead()[j] == (dead0[j] || (j < i && !epochs0[j]))
      {
        if epochFlags[i] {
          epochFlags := epochFlags[i := false];
        } else {
          collectionFlags.Set(i, size);
        }
        i := i + 1;
      }
    }

    /** Makes room for one more insertion into the current epoch, ageing it if it is full. */
    method EpochCheck() returns (ghost aged: bool)
      requires Valid()
      modifies this`epochCounter, this`epochFlags, collectionFlags
      ensures TableOk() && EpochsOk(1)
      ensures aged <==> old(epochCounter) == 0 && old(Count(true)) >= epochSize
      ensures !aged ==> LiveSet() == old(LiveSet()) && YoungSet() == old(YoungSet()) && epochCounter >= old(epochCounter) - 1
      ensures aged ==> LiveSet() == old(YoungSet()) && YoungSet() == {} && epochCounter == epochSize
      ensures aged ==> Count(false) == old(Count(true)) && Count(true) == 0
      ensures forall i :: 0 <= i < size && old(Dead())[i] ==> Dead()[i]
      ensures (SlotsNow(), epochCounter) == Checked(old(SlotsNow()), old(epochCounter), epochSize)
    {
      hide Placed, Unique, Live, Members, Bits, Aged;
      aged := false;
      if epochCounter != 0 {
        epochCounter := epochCounter - 1;
        return;
      }
      var unused := CountCurrent();
      if unused >= epochSize {
        aged := true;
        AgedMembers(Dead(), epochFlags);
        Age();
        epochCounter := epochSize;
        AgedTable(hash, size, table, old(Dead()), old(epochFlags), filler);
        AgedDead(old(Dead()), old(epochFlags));
        AgedYoung(table, old(Dead()), old(epochFlags), filler);
      } else {
        epochCounter := Max(1, Max(epochSize / 16, epochSize - unused));
      }
    }

    /** One round of displacement: `x` is stored, and what it displaced comes out. */
    method Exchange(x: E, p: nat, epoch: bool) returns (y: E, epoch': bool)
      requires TableOk() && (x == filler || (x !in table && x in inserted))
      requires p < size && p in Locs(hash, size, x) && !Dead()[p]
      modifies this`table, this`epochFlags, collectionFlags
      ensures TableOk() && (y == filler || (y !in table && y in inserted))
      ensures Carried(LiveSet(), y, filler, true) == Carried(old(LiveSet()), x, filler, true)
      ensures Carried(YoungSet(), y, filler, epoch') == Carried(old(YoungSet()), x, filler, epoch)
      ensures forall c :: Count(c) + (if epoch' == c then 1 else 0) == old(Count(c)) + (if epoch == c then 1 else 0)
      ensures y == old(table)[p] && epoch' == old(epochFlags)[p] && SlotsNow() == old(SlotsNow()).Stored(p, x, epoch)
    {
      hide Placed, Unique, Live, Members, Locs, Scale, Bits, Storable, Aged, Young, Carried;
      y, epoch' := table[p], epochFlags[p];
      SwappedOut(table, filler, p, x);
      StorableAbsent(table, filler, p, x);
      ghost var live, young := LiveSet(), YoungSet();
      AtSlot(table, Dead(), epochFlags, filler, p);
      Keep(p, x, epoch);
      SwapSets(live, LiveSet(), x, y, filler, true, true);
      SwapSets(young, YoungSet(), x, y, filler, epoch, epoch');
    }

    /** The displacement loop of insert, for an element that is not at any of its places. */
    method Displace(e: E) returns (ghost dropped: set<E>)
      requires TableOk() && (e == filler || (e !in table && e in inserted))
      modifies this`table, this`epochFlags, collectionFlags
      ensures TableOk()
      ensures |dropped| <= 1 && LiveSet() == old(LiveSet()) + ({e} - {filler}) - dropped
      ensures YoungSet() == old(YoungSet()) + ({e} - {filler}) - dropped
      ensures Count(true) <= old(Count(true)) + 1 && Count(false) <= old(Count(false))
      ensures depthLimit > 0 && HasRoom(Locs(hash, size, e), old(Dead())) ==> dropped == {}
      ensures SlotsNow() == Displaced(hash, size, old(SlotsNow()), e, 0xFFFF_FFFF, true, depthLimit)
    {
      hide Displaced, FirstDead;
      hide Placed, Unique, Live, Members, NextLoc, Locs, Scale, Bits, Storable, Aged, Young, Carried, Lost;
      var x, lastLoc, lastEpoch := e, 0xFFFF_FFFF, true;
      var depth := 0;
      ghost var goal, goalYoung := Carried(LiveSet(), e, filler, true), Carried(YoungSet(), e, filler, true);
      CarriedIs(LiveSet(), e, filler);
      CarriedIs(YoungSet(), e, filler);
      while depth < depthLimit
        invariant TableOk()
        invariant x == filler || (x !in table && x in inserted)
        invariant Carried(LiveSet(), x, filler, true) == goal
        invariant Carried(YoungSet(), x, filler, lastEpoch) == goalYoung
        invariant Count(true) + (if lastEpoch == true then 1 else 0) == old(Count(true)) + 1
        invariant Count(false) + (if lastEpoch == false then 1 else 0) == old(Count(false))
        invariant depth == 0 ==> x == e && Dead() == old(Dead())
        invariant depth > 0 ==> !HasRoom(Locs(hash, size, e), old(Dead()))
        invariant depth <= depthLimit
        invariant Displaced(hash, size, SlotsNow(), x, lastLoc, lastEpoch, depthLimit - depth) ==
                  Displaced(hash, size, old(SlotsNow()), e, 0xFFFF_FFFF, true, depthLimit)
      {
        DisplacedStep(hash, size, SlotsNow(), x, lastLoc, lastEpoch, depthLimit - depth);
        var locs := Locs(hash, size, x);
        var p := FreePlace(locs);
        if p < size {
          StorableAbsent(table, filler, p, x);
          ghost var live, young := LiveSet(), YoungSet();
          Keep(p, x, lastEpoch);
          dropped := {};
          CarriedStored(live, LiveSet(), x, filler, true);
          CarriedStored(young, YoungSet(), x, filler, lastEpoch);
          return;
        }
        lastLoc := NextLoc(locs, lastLoc);
        x, lastEpoch := Exchange(x, lastLoc, lastEpoch);
        depth := depth + 1;
      }
      DisplacedStep(hash, size, SlotsNow(), x, lastLoc, lastEpoch, 0);
      dropped := Lost(x, filler);
      YoungLive(table, Dead(), epochFlags, filler);
      LiveInTable(table, Dead(), filler, x);
      LostSound(YoungSet(), LiveSet(), x, filler, lastEpoch, goal, goalYoung);
    }

    /** The first place whose entry is garbage, or `size`. */
    method FreePlace(locs: seq<nat>) returns (p: nat)
      requires Sized() && forall k :: 0 <= k < |locs| ==> locs[k] < size
      ensures if p < size then p in locs && Dead()[p] else p == size && forall k :: 0 <= k < |locs| ==> !Dead()[locs[k]]
      ensures var k := FirstDead(locs, Dead()); p == if k < |locs| then locs[k] else size
    {
      var k := 0;
      while k < |locs|
        invariant 0 <= k <= |locs| && forall j :: 0 <= j < k ==> !Dead()[locs[j]]
      {
        if BitAt(collectionFlags.mem, locs[k]) {
          return locs[k];
        }
        k := k + 1;
      }
      return size;
    }

    /**
     Inserts an element: `e` joins the live and the young ones, at most one element is dropped, which
     may be `e` itself, and if the epoch is full only its elements stay; the epochs keep their bounds.
     */
    method Insert(e: E) returns (ghost aged: bool, ghost dropped: set<E>)
      requires Valid()
      modifies this, collectionFlags
      ensures Valid() && size == old(size) && epochSize == old(epochSize) && depthLimit == old(depthLimit)
      ensures inserted == old(inserted) + {e}
      ensures aged <==> old(epochCounter) == 0 && old(Count(true)) >= epochSize
      ensures if aged then epochCounter == epochSize else epochCounter >= old(epochCounter) - 1
      ensures |dropped| <= 1 && LiveSet() == (if aged then old(YoungSet()) else old(LiveSet())) + ({e} - {filler}) - dropped
      ensures YoungSet() == (if aged then {} else old(YoungSet())) + ({e} - {filler}) - dropped
      ensures e != filler && e in old(table) ==> dropped == {}
      ensures depthLimit > 0 && HasRoom(Locs(hash, size, e), old(Dead())) ==> dropped == {}
      ensures (SlotsNow(), epochCounter) == AfterInsert(ShapeOf(), e, old(SlotsNow()), old(epochCounter))
    {
      hide HasRoom, Checked, Settled;
      hide Placed, Unique, Live, Members, Locs, Scale, Bits, Storable, Aged, Young;
      aged := EpochCheck();
      RoomStays(Locs(hash, size, e), old(Dead()), Dead());
      Record(e);
      dropped := Settle(e);
    }

    ghost method Record(e: E)
      requires TableOk()
      modifies this`inserted
      ensures TableOk() && inserted == old(inserted) + {e}
      ensures SlotsNow() == old(SlotsNow()) && LiveSet() == old(LiveSet()) && YoungSet() == old(YoungSet())
      ensures Dead() == old(Dead()) && forall c :: Count(c) == old(Count(c))
    {
      inserted := inserted + {e};
    }

    /** Insertion after the epoch check. */
    method Settle(e: E) returns (ghost dropped: set<E>)
      requires TableOk() && e in inserted
      modifies this`table, this`epochFlags, collectionFlags
      ensures TableOk() && Count(true) <= old(Count(true)) + 1 && Count(false) <= old(Count(false))
      ensures |dropped| <= 1 && LiveSet() == old(LiveSet()) + ({e} - {filler}) - dropped
      ensures YoungSet() == old(YoungSet()) + ({e} - {filler}) - dropped
      ensures e != filler && e in old(table) ==> dropped == {}
      ensures depthLimit > 0 && HasRoom(Locs(hash, size, e), old(Dead())) ==> dropped == {}
      ensures SlotsNow() == Settled(ShapeOf(), old(SlotsNow()), e)
    {
      hide HasRoom, Displaced, FirstHolding;
      hide Placed, Unique, Live, Members, Locs, Scale, Bits, Storable, Aged, Young;
      var p := Find(e);
      dropped := {};
      if p < size {
        StorableAt(table, filler, p);
        AtSlot(table, Dead(), epochFlags, filler, p);
        ghost var live, young, dead, epochs := LiveSet(), YoungSet(), Dead(), epochFlags;
        Keep(p, e, true);
        CarriedOver(live, LiveSet(), e, filler, if dead[p] then {} else {e});
        CarriedOver(young, YoungSet(), e, filler, if dead[p] || !epochs[p] then {} else {e});
      } else {
        dropped := Displace(e);
      }
    }

    /** The first place that holds the element, or `size`. */
    method Find(e: E) returns (p: nat)
      requires TableOk()
      ensures if p < size then p in Locs(hash, size, e) && table[p] == e else p == size && (e == filler || e !in table)
      ensures p == size ==> e !in LiveSet() && forall k :: 0 <= k < 8 ==> table[Locs(hash, size, e)[k]] != e
      ensures var locs := Locs(hash, size, e);
              var k := FirstHolding(locs, table, e);
              p == if k < 8 then locs[k] else size
    {
      hide Scale, Unique;
      var locs := Locs(hash, size, e);
      var k := 0;
      while k < 8
        invariant 0 <= k <= 8 && forall j :: 0 <= j < k ==> table[locs[j]] != e
      {
        if table[locs[k]] == e {
          return locs[k];
        }
        k := k + 1;
      }
      FoundIfPresent(hash, size, table, Dead(), filler, e);
      return size;
    }
  }

  lemma AllDead<E(!new)>(table: seq<E>, dead: seq<bool>, epochs: seq<bool>, filler: E)
    requires |table| == |dead| == |epochs| && forall i :: 0 <= i < |dead| ==> dead[i]
    ensures Live(table, dead, filler) == {}
    ensures Members(dead, epochs, true) == {} && Members(dead, epochs, false) == {}
  {
    forall i ensures i !in Members(dead, epochs, true) && i !in Members(dead, epochs, false) {}
    forall x ensures x !in Live(table, dead, filler) {}
  }

  // ---------- the load ----------

  /** Distinct live elements need distinct live slots. */
  lemma {:induction false} ImageSize<E(!new)>(table: seq<E>, slots: set<int>, image: set<E>)
    requires forall x :: x in image ==> exists i :: i in slots && 0 <= i < |table| && table[i] == x
    ensures |image| <= |slots|
    decreases slots
  {
    if image != {} {
      var x :| x in image;
      var i :| i in slots && 0 <= i < |table| && table[i] == x;
      forall y | y in image - {x} ensures exists j :: j in slots - {i} && 0 <= j < |table| && table[j] == y {
        var j :| j in slots && 0 <= j < |table| && table[j] == y;
        assert j in slots - {i};
      }
      ImageSize(table, slots - {i}, image - {x});
    }
  }

  lemma LiveSize<E(!new)>(table: seq<E>, dead: seq<bool>, epochs: seq<bool>, filler: E)
    requires |table| == |dead| == |epochs|
    ensures |Live(table, dead, filler)| <= |Members(dead, epochs, true)| + |Members(dead, epochs, false)|
  {
    var current, older := Members(dead, epochs, true), Members(dead, epochs, false);
    forall x | x in Live(table, dead, filler) ensures exists i :: i in current + older && 0 <= i < |table| && table[i] == x {
      var i :| 0 <= i < |table| && !dead[i] && table[i] == x;
      assert i in current + older;
    }
    ImageSize(table, current + older, Live(table, dead, filler));
  }

  // ---------- whole runs ----------

  datatype Op<E> = Insert(e: E) | Contains(e: E, erase: bool)

  /** What the operations inserted. */
  ghost function Inserted<E(!new)>(ops: seq<Op<E>>): set<E> {
    set i | 0 <= i < |ops| && ops[i].Insert? :: ops[i].e
  }

  /** How many insertions there are. */
  function Inserts<E>(ops: seq<Op<E>>): nat {
    if ops == [] then 0 else Inserts(ops[..|ops| - 1]) + if ops[|ops| - 1].Insert? then 1 else 0
  }

  lemma InsertsNext<E(!new)>(ops: seq<Op<E>>, k: nat, i: nat)
    requires k <= i < |ops|
    ensures Inserts(ops[k..i + 1]) == Inserts(ops[k..i]) + (if ops[i].Insert? then 1 else 0)
    ensures Inserted(ops[..i + 1]) == Inserted(ops[..i]) + (if ops[i].Insert? then {ops[i].e} else {})
  {
    assert ops[k..i + 1][..i - k] == ops[k..i];
    var now, next := ops[..i], ops[..i + 1];
    forall x ensures x in Inserted(next) <==> x in Inserted(now) || (ops[i].Insert? && x == ops[i].e) {
      if x in Inserted(now) {
        var j :| 0 <= j < |now| && now[j].Insert? && now[j].e == x;
        assert next[j] == now[j];
      }
      if ops[i].Insert? && x == ops[i].e {
        assert next[i] == ops[i];
      }
      if x in Inserted(next) {
        var j :| 0 <= j < |next| && next[j].Insert? && next[j].e == x;
        assert j < i ==> now[j] == next[j];
      }
    }
  }

  datatype Event<E(!new)> = Event(answer: bool, aged: bool, dropped: set<E>)

  /** The live elements are those of the slots. */
  ghost predicate Consistent<E(!new)>(g: Shape<E>, m: Moment<E>) {
    && m.slots.Sized(g.size)
    && m.live == Live(m.slots.table, m.slots.dead, g.filler)
    && m.young == Young(m.slots.table, m.slots.dead, m.slots.epochs, g.filler)
  }

  /** The current epoch is to be aged by the next insertion. */
  ghost predicate Full<E(!new)>(g: Shape<E>, m: Moment<E>)
    requires m.slots.Sized(g.size)
  {
    m.counter == 0 && |Members(m.slots.dead, m.slots.epochs, true)| >= g.epochSize
  }

  /** The element is in the table, or one of its places is garbage. */
  ghost predicate Fits<E(!new)>(g: Shape<E>, e: E, m: Moment<E>)
    requires g.size > 0
  {
    (e != g.filler && e in m.slots.table) || (g.depth > 0 && HasRoom(Locs(g.hash, g.size, e), m.slots.dead))
  }

  /** One operation: what it answers, what it does to the slots, and what that means for the live elements. */
  ghost predicate Stepped<E(!new)>(g: Shape<E>, op: Op<E>, a: Moment<E>, b: Moment<E>, ev: Event<E>) {
    && g.size > 0 && Consistent(g, a) && Consistent(g, b)
    && match op
       case Insert(e) =>
         && (b.slots, b.counter) == AfterInsert(g, e, a.slots, a.counter)
         && (ev.aged <==> Full(g, a))
         && |ev.dropped| <= 1 && (Fits(g, e, a) ==> ev.dropped == {})
         && b.live == (if ev.aged then a.young else a.live) + ({e} - {g.filler}) - ev.dropped
         && b.young == (if ev.aged then {} else a.young) + ({e} - {g.filler}) - ev.dropped
       case Contains(e, erase) =>
         && b.slots == Erased(g, e, erase, a.slots) && b.counter == a.counter
         && !ev.aged && ev.dropped == {}
         && (ev.answer <==> Answer(g, e, a.slots))
         && (e != g.filler ==> (ev.answer <==> e in a.slots.table))
         && (e in a.live ==> ev.answer)
         && b.live == (if ev.answer && erase then a.live - {e} else a.live)
         && b.young == (if ev.answer && erase then a.young - {e} else a.young)
  }

  lemma InsertStepped<E(!new)>(g: Shape<E>, e: E, a: Moment<E>, b: Moment<E>, ev: Event<E>)
    requires g.size > 0 && Consistent(g, a) && Consistent(g, b)
    requires (b.slots, b.counter) == AfterInsert(g, e, a.slots, a.counter) && (ev.aged <==> Full(g, a))
    requires |ev.dropped| <= 1 && (Fits(g, e, a) ==> ev.dropped == {})
    requires b.live == (if ev.aged then a.young else a.live) + ({e} - {g.filler}) - ev.dropped
    requires b.young == (if ev.aged then {} else a.young) + ({e} - {g.filler}) - ev.dropped
    ensures Stepped(g, Insert(e), a, b, ev)
  {}

  lemma ContainsStepped<E(!new)>(g: Shape<E>, e: E, erase: bool, a: Moment<E>, b: Moment<E>, ev: Event<E>)
    requires g.size > 0 && Consistent(g, a) && Consistent(g, b)
    requires b.slots == Erased(g, e, erase, a.slots) && b.counter == a.counter && !ev.aged && ev.dropped == {}
    requires (ev.answer <==> Answer(g, e, a.slots)) && (e in a.live ==> ev.answer)
    requires e != g.filler ==> (ev.answer <==> e in a.slots.table)
    requires b.live == if ev.answer && erase then a.live - {e} else a.live
    requires b.young == if ev.answer && erase then a.young - {e} else a.young
    ensures Stepped(g, Contains(e, erase), a, b, ev)
  {}

  /** Ageing happens only after `epochSize` insertions since the beginning and since the last ageing. */
  ghost predicate Spaced<E(!new)>(ops: seq<Op<E>>, events: seq<Event<E>>, epochSize: nat) {
    && |events| <= |ops|
    && (forall m :: 0 <= m < |events| && events[m].aged ==> Inserts(ops[0..m]) >= epochSize)
    && forall k, m :: 0 <= k < m < |events| && events[k].aged && events[m].aged ==> Inserts(ops[k + 1..m]) >= epochSize
  }

  /** The moments before the first operation and after each, as the operations explain them. */
  ghost predicate Story<E(!new)>(g: Shape<E>, ops: seq<Op<E>>, moments: seq<Moment<E>>, events: seq<Event<E>>) {
    && |events| <= |ops| && |moments| == |events| + 1
    && moments[0] == Fresh(g)
    && (forall i :: 0 <= i < |events| ==> Stepped(g, ops[i], moments[i], moments[i + 1], events[i]))
    && (forall i :: 0 <= i < |events| && events[i].aged ==> ops[i].Insert?)
    && (forall i | 0 <= i < |events| && ops[i].Contains? && events[i].answer && ops[i].e != g.filler ::
          ops[i].e in Inserted(ops[..i]))
    && (forall i :: 0 <= i < |moments| ==> |moments[i].live| <= 2 * EpochBound(g.epochSize))
    && Spaced(ops, events, g.epochSize)
  }

  /** The insertions since the last ageing and those until the counter runs out fill an epoch. */
  ghost predicate Due<E(!new)>(ops: seq<Op<E>>, events: seq<Event<E>>, counter: nat, epochSize: nat) {
    && |events| <= |ops|
    && Inserts(ops[0..|events|]) + counter >= epochSize
    && forall k :: 0 <= k < |events| && events[k].aged ==> Inserts(ops[k + 1..|events|]) + counter >= epochSize
  }

  /** An operation and the counter of the epoch. */
  predicate Counted<E>(op: Op<E>, aged: bool, counter: nat, counter': nat, epochSize: nat) {
    match op
    case Insert(_) => if aged then counter == 0 && counter' == epochSize else counter' >= counter - 1
    case Contains(_, _) => !aged && counter' == counter
  }

  lemma SpacedNext<E(!new)>(ops: seq<Op<E>>, events: seq<Event<E>>, ev: Event<E>, counter: nat, counter': nat, epochSize: nat)
    requires |events| < |ops| && Spaced(ops, events, epochSize) && Due(ops, events, counter, epochSize)
    requires Counted(ops[|events|], ev.aged, counter, counter', epochSize)
    ensures Spaced(ops, events + [ev], epochSize) && Due(ops, events + [ev], counter', epochSize)
  {
    hide Inserts, Inserted;
    var i := |events|;
    var next := events + [ev];
    InsertsNext(ops, 0, i);
    forall k | 0 <= k < i && events[k].aged ensures Inserts(ops[k + 1..i + 1]) + counter' >= epochSize {
      InsertsNext(ops, k + 1, i);
    }
    forall k, m | 0 <= k < m < |next| && next[k].aged && next[m].aged ensures Inserts(ops[k + 1..m]) >= epochSize {
      assert next[k] == events[k];
      assert m < i ==> next[m] == events[m];
    }
  }

  method Perform<E(==, !new)>(cache: Cache<E>, op: Op<E>) returns (answer: bool, ghost ev: Event<E>)
    requires cache.Valid()
    modifies cache, cache.collectionFlags
    ensures cache.Valid() && cache.ShapeOf() == old(cache.ShapeOf()) && ev.answer == answer
    ensures Stepped(cache.ShapeOf(), op, old(cache.Now()), cache.Now(), ev)
    ensures Counted(op, ev.aged, old(cache.epochCounter), cache.epochCounter, cache.epochSize)
    ensures cache.inserted == old(cache.inserted) + if op.Insert? then {op.e} else {}
    ensures op.Contains? && answer && op.e != cache.filler ==> op.e in old(cache.inserted)
    ensures |cache.LiveSet()| <= 2 * EpochBound(cache.epochSize)
  {
    hide Placed, Live, Members, Bits, Unique, Aged, Young, EpochBound, Locs, HasRoom, AfterInsert, Answer, Erased, Stepped;
    ghost var g, before := cache.ShapeOf(), cache.Now();
    match op {
      case Insert(e) =>
        answer := false;
        ghost var aged, dropped := cache.Insert(e);
        ev := Event(false, aged, dropped);
        InsertStepped(g, e, before, cache.Now(), ev);
      case Contains(e, erase) =>
        answer := cache.Contains(e, erase);
        ev := Event(answer, false, {});
        ContainsStepped(g, e, erase, before, cache.Now(), ev);
    }
    LiveSize(cache.table, cache.Dead(), cache.epochFlags, cache.filler);
  }

  /**
   Any run after the first setup, for a number of slots whose flags fit the memory: the operations explain the slots
   and the live elements at every moment, a lookup finds what is live and finds nothing but what was inserted before,
   and at no moment do the live elements exceed twice the bound of an epoch.
   */
  method Run<E(==, !new)>(hash: (nat, E) -> uint32, filler: E, newSize: uint32, depth: nat, ops: seq<Op<E>>)
    returns (usable: bool, cache: Cache<E>, answers: seq<bool>, ghost moments: seq<Moment<E>>, ghost events: seq<Event<E>>)
    ensures usable <==> newSize <= MAX_FLAGS
    ensures var size := if newSize < 2 then 2 else newSize;
            cache.ShapeOf() == Shape(hash, filler, size, depth, EpochSize(size))
    ensures usable ==> cache.Valid() && cache.inserted == Inserted(ops)
    ensures usable ==> |answers| == |events| == |ops| && forall i :: 0 <= i < |ops| ==> answers[i] == events[i].answer
    ensures usable ==> Story(cache.ShapeOf(), ops, moments, events)
    ensures usable ==> |moments| == |ops| + 1 && moments[|ops|] == cache.Now()
  {
    hide Placed, Live, Members, Bits, Unique, Aged, Young, Inserted, Inserts, Due, EpochBound, Story, Stepped, Counted, EpochSize;
    hide Fresh;
    cache := new Cache(hash, filler);
    var slots := cache.Setup(newSize, depth);
    usable, answers, moments, events := slots <= MAX_FLAGS, [], [], [];
    if !usable {
      return;
    }
    ghost var g := cache.ShapeOf();
    moments := [Fresh(g)];
    Beginning(g, ops, cache.epochCounter);
    for i := 0 to |ops|
      invariant fresh(cache) && fresh(cache.collectionFlags) && cache.Valid() && cache.ShapeOf() == g
      invariant cache.inserted == Inserted(ops[..i])
      invariant |answers| == |events| == i && forall j :: 0 <= j < i ==> answers[j] == events[j].answer
      invariant Story(g, ops, moments, events) && Due(ops, events, cache.epochCounter, g.epochSize)
      invariant |moments| == i + 1 && moments[i] == cache.Now()
    {
      InsertsNext(ops, 0, i);
      ghost var counter := cache.epochCounter;
      var answer;
      ghost var ev;
      answer, ev := Perform(cache, ops[i]);
      StoryNext(g, ops, moments, events, cache.Now(), ev, counter, cache.epochCounter);
      answers, moments, events := answers + [answer], moments + [cache.Now()], events + [ev];
    }
    assert ops[..|ops|] == ops;
  }

  lemma Beginning<E(!new)>(g: Shape<E>, ops: seq<Op<E>>, counter: nat)
    requires counter >= g.epochSize
    ensures Story(g, ops, [Fresh(g)], []) && Due(ops, [], counter, g.epochSize) && Inserted(ops[..0]) == {}
  {}

  lemma StoryNext<E(!new)>(g: Shape<E>, ops: seq<Op<E>>, moments: seq<Moment<E>>, events: seq<Event<E>>,
                           next: Moment<E>, ev: Event<E>, counter: nat, counter': nat)
    requires Story(g, ops, moments, events) && |events| < |ops|
    requires Stepped(g, ops[|events|], moments[|events|], next, ev) && Due(ops, events, counter, g.epochSize)
    requires Counted(ops[|events|], ev.aged, counter, counter', g.epochSize)
    requires |next.live| <= 2 * EpochBound(g.epochSize)
    requires var op := ops[|events|]; op.Contains? && ev.answer && op.e != g.filler ==> op.e in Inserted(ops[..|events|])
    ensures Story(g, ops, moments + [next], events + [ev]) && Due(ops, events + [ev], counter', g.epochSize)
  {
    hide Inserted, Stepped, Spaced, EpochBound, Due, Fresh;
    SpacedNext(ops, events, ev, counter, counter', g.epochSize);
  }

  /** The element is neither erased nor dropped by operations i up to j. */
  ghost predicate LeftAlone<E(!new)>(ops: seq<Op<E>>, events: seq<Event<E>>, x: E, i: nat, j: nat)
    requires j <= |events| <= |ops|
  {
    forall k | i <= k < j :: x !in events[k].dropped && ops[k] != Contains(x, true)
  }

  /** An element survives its epoch and the one after: it is lost to ageing at the second ageing at the earliest. */
  lemma {:induction false} SurvivesOneAgeing<E(!new)>(g: Shape<E>, ops: seq<Op<E>>, moments: seq<Moment<E>>,
                                                      events: seq<Event<E>>, x: E, i: nat, j: nat)
    requires Story(g, ops, moments, events)
    requires i < j <= |events| && ops[i] == Insert(x) && x != g.filler && LeftAlone(ops, events, x, i, j)
    requires forall k, m :: i < k < m < j && events[k].aged ==> !events[m].aged
    ensures x in moments[j].live
    ensures (forall k :: i < k < j ==> !events[k].aged) ==> x in moments[j].young
  {
    hide Inserts, Inserted, Spaced, AfterInsert, Erased, Answer, Full, Fits, Consistent, Fresh;
    assert Stepped(g, ops[j - 1], moments[j - 1], moments[j], events[j - 1]);
    if j - 1 > i {
      SurvivesOneAgeing(g, ops, moments, events, x, i, j - 1);
    }
  }

  /** An inserted element that is left alone stays live through the next `epochSize + 1` insertions, whatever they are. */
  lemma LivesForAnEpoch<E(!new)>(g: Shape<E>, ops: seq<Op<E>>, moments: seq<Moment<E>>, events: seq<Event<E>>,
                                 x: E, i: nat, j: nat)
    requires Story(g, ops, moments, events)
    requires i < j <= |events| && ops[i] == Insert(x) && x != g.filler && LeftAlone(ops, events, x, i, j)
    requires Inserts(ops[i + 1..j]) <= g.epochSize + 1
    ensures x in moments[j].live
  {
    hide Inserted, Stepped, Fresh;
    forall k, m | i < k < m < j && events[k].aged ensures !events[m].aged {
      if events[m].aged {
        InsertsSplit(ops, i + 1, k, m, j);
        assert false;
      }
    }
    SurvivesOneAgeing(g, ops, moments, events, x, i, j);
  }

  /**
   As long as insertions find their element in the table or a place that is garbage, nothing is dropped: an element is
   found by every lookup until it is erased or an epoch's worth of insertions has followed.
   */
  lemma FoundWhileFitting<E(!new)>(g: Shape<E>, ops: seq<Op<E>>, moments: seq<Moment<E>>, events: seq<Event<E>>,
                                   x: E, i: nat, j: nat)
    requires Story(g, ops, moments, events)
    requires i < j < |events| && ops[i] == Insert(x) && x != g.filler && ops[j].Contains? && ops[j].e == x
    requires forall k :: i <= k < j && ops[k].Insert? ==> g.size > 0 && Fits(g, ops[k].e, moments[k])
    requires forall k :: i < k < j ==> ops[k] != Contains(x, true)
    requires Inserts(ops[i + 1..j]) <= g.epochSize + 1
    ensures events[j].answer
  {
    hide Inserts, Inserted, Spaced, AfterInsert, Erased, Answer, Full, Fits, Consistent, Fresh;
    forall k | i <= k < j ensures x !in events[k].dropped {
      assert Stepped(g, ops[k], moments[k], moments[k + 1], events[k]);
    }
    LivesForAnEpoch(g, ops, moments, events, x, i, j);
    assert Stepped(g, ops[j], moments[j], moments[j + 1], events[j]);
  }

  lemma {:induction false} InsertsConcat<E>(a: seq<Op<E>>, b: seq<Op<E>>)
    ensures Inserts(a + b) == Inserts(a) + Inserts(b)
  {
    if b == [] {
      assert a + b == a;
    } else {
      var b' := b[..|b| - 1];
      InsertsConcat(a, b');
      assert (a + b)[..|a + b| - 1] == a + b';
    }
  }

  lemma InsertsSplit<E>(ops: seq<Op<E>>, i: nat, k: nat, m: nat, j: nat)
    requires i <= k < m < j <= |ops| && ops[k].Insert? && ops[m].Insert?
    ensures Inserts(ops[i..j]) >= Inserts(ops[k + 1..m]) + 2
  {
    hide Inserts;
    InsertsAt(ops, i, k, j);
    InsertsAt(ops, k + 1, m, j);
  }

  lemma InsertsAt<E>(ops: seq<Op<E>>, i: nat, k: nat, j: nat)
    requires i <= k < j <= |ops| && ops[k].Insert?
    ensures Inserts(ops[i..j]) == Inserts(ops[i..k]) + 1 + Inserts(ops[k + 1..j])
  {
    var a, b, c := ops[i..k], [ops[k]], ops[k + 1..j];
    assert ops[i..j] == a + (b + c);
    InsertsConcat(a, b + c);
    InsertsConcat(b, c);
    assert Inserts(b) == 1 by {
      assert b[..0] == [];
    }
  }

  /** Erasing only allows collection: an element that was erased is found as before until something is inserted. */
  method EraseIsLazy<E(==, !new)>(cache: Cache<E>, x: E) returns (before: bool, after: bool)
    requires cache.Valid()
    modifies cache.collectionFlags
    ensures cache.Valid() && before == after
    ensures before <==> exists k :: 0 <= k < 8 && cache.table[Locs(cache.hash, cache.size, x)[k]] == x
    ensures x !in cache.LiveSet() && cache.LiveSet() == old(cache.LiveSet()) - {x}
  {
    hide Placed, Live, Members, Bits, Unique, Locs, Young, Aged;
    before := cache.Contains(x, true);
    after := cache.Contains(x, false);
  }

  lemma StorableAt<E>(table: seq<E>, filler: E, p: nat)
    requires Unique(table, filler) && p < |table|
    ensures Storable(table, p, table[p], filler)
  {}

  lemma StorableAbsent<E>(table: seq<E>, filler: E, p: nat, x: E)
    requires x == filler || x !in table
    ensures Storable(table, p, x, filler)
  {}
}
