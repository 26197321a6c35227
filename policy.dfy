/**
 * The block-list policy of the slab allocator, on values: which block serves
 * an allocation, when a block is created, moved to the front, evicted or
 * reclaimed, and how `total_count` and `reserved_count` follow the list.
 *
 * The state is generic in the block handle `B`; the allocator class uses its
 * block objects as handles and proves each of its methods equal to the
 * function here of the same name. A block creation that may fail is an
 * `Option<B>` argument: `None` when raw memory is refused, otherwise a handle
 * not yet in the list.
 */
module Policy {
  import opened Bits
  import opened BlockList

  /** Blocks found further down the list than this move to the head. */
  const TraverseThreshold: nat := 4

  datatype Option<T> = None | Some(value: T)

  /**
   * A payload pointer as the allocator sees it: `Null`, or the block that
   * `getBlockFromUnit` lands on together with the index field of the unit
   * header in front of the payload.
   */
  datatype Ptr<B> = Null | Payload(block: B, index: bv32)

  /**
   * The allocator's state: the block list (head first), the free mask of
   * each listed block, the cached block, the two counters and the limit.
   */
  datatype Slabs<B> = Slabs(list: seq<B>, mask: map<B, bv64>, cache: B,
                            total: int, reserved: int, limit: nat)

  /** The list structure: non-empty, no repetitions, one mask per listed block, cache listed. */
  predicate Wf<B>(s: Slabs<B>)
  {
    |s.list| >= 1 && Distinct(s.list) && Covered(s.list, s.mask) &&
    (forall b :: b in s.mask ==> b in s.list) && s.cache in s.list
  }

  /** 1 for an empty block (all units free), 0 otherwise. */
  function Empty(w: bv64): (n: nat)
  {
    if w == ALL then 1 else 0
  }

  /** The number of allocated units of a block: its clear bits. */
  function InUse(w: bv64): (n: nat)
  {
    64 - Popcnt64(w)
  }

  /** A block is empty exactly when none of its units is allocated. */
  lemma EmptyHasNoneInUse()
    ensures InUse(ALL) == 0
  {
    PopcntFull(ALL);
  }

  /** The number of empty blocks in the list. */
  function EmptyCount<B>(s: Slabs<B>): (n: nat)
    requires Wf(s)
  {
    Sum(s.list, s.mask, Empty)
  }

  /** The number of units handed out and not yet returned. */
  function Outstanding<B>(s: Slabs<B>): (n: nat)
    requires Wf(s)
  {
    Sum(s.list, s.mask, InUse)
  }

  /**
   * The allocator invariant: `total_count` is the list length,
   * `reserved_count` the number of empty blocks, and that number stays
   * within `reserved_limit`, which is at least 1.
   */
  predicate Inv<B>(s: Slabs<B>)
  {
    Wf(s) && s.total == |s.list| && s.reserved == EmptyCount(s) &&
    1 <= s.limit && s.reserved <= s.limit
  }

  /** The state the constructor leaves: one empty block, cached and counted. */
  function Init<B>(b: B, reservedLimit: nat): (s: Slabs<B>)
    ensures Inv(s) && Outstanding(s) == 0
  {
    var s := Slabs([b], map[b := ALL], b, 1, 1, if reservedLimit < 1 then 1 else reservedLimit);
    assert Sum(s.list[1..], s.mask, Empty) == 0 && Sum(s.list[1..], s.mask, InUse) == 0;
    EmptyHasNoneInUse();
    s
  }

  // ---------------------------------------------------------------------------
  // allocate

  /** The first position at or after `j` whose block is not full, or `|l|`. */
  function FirstNonFull<B>(l: seq<B>, m: map<B, bv64>, j: nat): (k: nat)
    requires Covered(l, m) && j <= |l|
    ensures j <= k <= |l|
    ensures k < |l| ==> m[l[k]] != 0
    ensures forall i :: j <= i < k ==> m[l[i]] == 0
    decreases |l| - j
  {
    if j == |l| || m[l[j]] != 0 then j else FirstNonFull(l, m, j + 1)
  }

  /** `allocateUnit` on listed block `b`: take its lowest free unit. */
  function Take<B>(s: Slabs<B>, b: B): (r: (Slabs<B>, Ptr<B>))
    requires b in s.mask && s.mask[b] != 0
  {
    var i := Ctz64(s.mask[b]);
    (s.(mask := s.mask[b := SetZero(s.mask[b], i)]), Payload(b, i as bv32))
  }

  /** `reserved_count` after serving from block `b`, which stops being empty. */
  function Unreserve<B>(s: Slabs<B>, b: B): (n: int)
    requires b in s.mask
  {
    if s.mask[b] == ALL then s.reserved - 1 else s.reserved
  }

  /**
   * `allocate`: serve from the cache when it is not full; otherwise from the
   * first non-full block, which becomes the cache and moves to the head when
   * it was found more than TraverseThreshold steps down; otherwise from a new
   * block pushed at the head, or hand out nothing when it cannot be created.
   */
  function Allocate<B>(s: Slabs<B>, spare: Option<B>): (r: (Slabs<B>, Ptr<B>))
    requires Wf(s) && (spare.Some? ==> spare.value !in s.mask)
    ensures r.1.Null? ==> spare.None? && r.0 == s
  {
    if s.mask[s.cache] != 0 then
      Take(s.(reserved := Unreserve(s, s.cache)), s.cache)
    else
      var k := FirstNonFull(s.list, s.mask, 0);
      if k == |s.list| then
        match spare
        case None => (s, Null)
        case Some(nb) =>
          Take(Push(s, nb), nb)
      else
        ServeFound(s, k)
  }

  /**
   * Serving from the first non-full block, found `k` steps down the list: it
   * becomes the cache, and the head when `k` exceeds TraverseThreshold.
   */
  function ServeFound<B>(s: Slabs<B>, k: nat): (r: (Slabs<B>, Ptr<B>))
    requires Wf(s) && k < |s.list| && s.mask[s.list[k]] != 0
  {
    var b := s.list[k];
    var l := if k > TraverseThreshold then MoveToFront(s.list, k) else s.list;
    Take(s.(list := l, cache := b, reserved := Unreserve(s, b)), b)
  }

  /** The list and cache once the walk has stopped at position `k`, before serving. */
  function Moved<B>(s: Slabs<B>, k: nat): (t: Slabs<B>)
    requires k < |s.list|
  {
    s.(list := if k > TraverseThreshold then MoveToFront(s.list, k) else s.list, cache := s.list[k])
  }

  /** ServeFound is serving from the cached block of the moved state. */
  lemma ServeFoundMoved<B>(s: Slabs<B>, k: nat)
    requires Wf(s) && k < |s.list| && s.mask[s.list[k]] != 0
    ensures var t := Moved(s, k);
      s.list[k] in t.mask && ServeFound(s, k) == Take(t.(reserved := Unreserve(t, s.list[k])), s.list[k])
  {
  }

  // ---------------------------------------------------------------------------
  // Facts about the three steps `allocate` is made of

  /** Clearing a bit leaves a word that is not all ones. */
  lemma ClearedIsNotAll(w: bv64, i: bv6)
    ensures SetZero(w, i) != ALL
  {
    AllBit(i);
  }

  /** The allocated count of a block goes up by one when a free unit is taken. */
  lemma InUseSetZero(w: bv64, i: bv6)
    requires Get(w, i) == 1
    ensures InUse(SetZero(w, i)) == InUse(w) + 1
  {
    PopcntSetZero(w, i);
  }

  /** The allocated count of a block goes down by one when a unit is returned. */
  lemma InUseSetOne(w: bv64, i: bv6)
    requires Get(w, i) == 0
    ensures InUse(SetOne(w, i)) + 1 == InUse(w)
  {
    PopcntSetOne(w, i);
  }

  /**
   * Taking a unit from a block: the lowest free unit is taken and only its
   * bit changes; list, cache and counters stay.
   */
  lemma TakeShape<B>(s: Slabs<B>, b: B)
    requires Wf(s) && b in s.mask && s.mask[b] != 0
    ensures var (t, p) := Take(s, b);
      var i := Ctz64(s.mask[b]);
      Wf(t) && t.list == s.list && t.cache == s.cache && t.total == s.total && t.reserved == s.reserved &&
      p == Payload(b, i as bv32) && Bit(s.mask[b], i) == 1 &&
      t.mask == s.mask[b := SetZero(s.mask[b], i)]
  {
  }

  /** Taking a unit from a block that was empty leaves one empty block fewer. */
  lemma TakeEmptyCount<B>(s: Slabs<B>, b: B)
    requires Wf(s) && b in s.mask && s.mask[b] != 0
    ensures Wf(Take(s, b).0)
    ensures EmptyCount(Take(s, b).0) + Empty(s.mask[b]) == EmptyCount(s)
  {
    var w := s.mask[b];
    var i := Ctz64(w);
    ClearedIsNotAll(w, i);
    SumUpdate(s.list, s.mask, b, SetZero(w, i), Empty);
  }

  /** Taking a unit puts one more unit out. */
  lemma TakeOutstanding<B>(s: Slabs<B>, b: B)
    requires Wf(s) && b in s.mask && s.mask[b] != 0
    ensures Wf(Take(s, b).0)
    ensures Outstanding(Take(s, b).0) == Outstanding(s) + 1
  {
    var w := s.mask[b];
    var i := Ctz64(w);
    SumUpdate(s.list, s.mask, b, SetZero(w, i), InUse);
    InUseSetZero(w, i);
  }

  lemma TakeFacts<B>(s: Slabs<B>, b: B)
    requires Wf(s) && b in s.mask && s.mask[b] != 0
    ensures var t := Take(s, b).0;
      Wf(t) && t.list == s.list && t.cache == s.cache && t.total == s.total && t.reserved == s.reserved &&
      EmptyCount(t) + Empty(s.mask[b]) == EmptyCount(s) && Outstanding(t) == Outstanding(s) + 1
  {
    TakeShape(s, b);
    TakeEmptyCount(s, b);
    TakeOutstanding(s, b);
  }

  /** Pushing a new empty block at the head. */
  function Push<B>(s: Slabs<B>, nb: B): (t: Slabs<B>)
  {
    s.(list := [nb] + s.list, mask := s.mask[nb := ALL], cache := nb, total := s.total + 1)
  }

  lemma PushWf<B>(s: Slabs<B>, nb: B)
    requires Wf(s) && nb !in s.mask
    ensures Wf(Push(s, nb))
  {
  }

  lemma PushEmptyCount<B>(s: Slabs<B>, nb: B)
    requires Wf(s) && nb !in s.mask && Wf(Push(s, nb))
    ensures EmptyCount(Push(s, nb)) == EmptyCount(s) + 1
  {
    var t := Push(s, nb);
    assert t.list[1..] == s.list;
    SumFrame(s.list, s.mask, t.mask, Empty);
  }

  lemma PushOutstanding<B>(s: Slabs<B>, nb: B)
    requires Wf(s) && nb !in s.mask && Wf(Push(s, nb))
    ensures Outstanding(Push(s, nb)) == Outstanding(s)
  {
    var t := Push(s, nb);
    SumConcat([nb], s.list, t.mask, InUse);
    SumFrame(s.list, s.mask, t.mask, InUse);
    EmptyHasNoneInUse();
    assert Sum([nb], t.mask, InUse) == 0 by {
      assert [nb][1..] == [];
    }
  }

  lemma MoveFacts<B>(s: Slabs<B>, k: nat)
    requires Wf(s) && k < |s.list|
    ensures var t := s.(list := MoveToFront(s.list, k));
      Wf(t) && EmptyCount(t) == EmptyCount(s) && Outstanding(t) == Outstanding(s)
  {
    MoveToFrontDistinct(s.list, k);
    MoveToFrontSame(s.list, k);
    SumMoveToFront(s.list, k, s.mask, Empty);
    SumMoveToFront(s.list, k, s.mask, InUse);
  }

  /**
   * `allocate` keeps the invariant; when it hands out nothing the state is
   * untouched, and otherwise exactly one more unit is out.
   */
  lemma AllocateKeepsInv<B>(s: Slabs<B>, spare: Option<B>)
    requires Inv(s) && (spare.Some? ==> spare.value !in s.mask)
    ensures Inv(Allocate(s, spare).0)
    ensures Allocate(s, spare).1.Null? ==> Allocate(s, spare).0 == s
    ensures Allocate(s, spare).1.Payload? ==> Outstanding(Allocate(s, spare).0) == Outstanding(s) + 1
  {
    if s.mask[s.cache] != 0 {
      TakeFacts(s.(reserved := Unreserve(s, s.cache)), s.cache);
    } else {
      var k := FirstNonFull(s.list, s.mask, 0);
      if k == |s.list| {
        if spare.Some? {
          AllocateByPush(s, spare.value);
        }
      } else {
        AllocateByScan(s, k);
      }
    }
  }

  lemma AllocateByPush<B>(s: Slabs<B>, nb: B)
    requires Inv(s) && nb !in s.mask
    ensures var t := Take(Push(s, nb), nb).0;
      Inv(t) && Outstanding(t) == Outstanding(s) + 1
  {
    PushWf(s, nb);
    PushEmptyCount(s, nb);
    PushOutstanding(s, nb);
    TakeFacts(Push(s, nb), nb);
  }

  lemma AllocateByScan<B>(s: Slabs<B>, k: nat)
    requires Inv(s) && k < |s.list| && s.mask[s.list[k]] != 0
    ensures var b := s.list[k];
      var l := if k > TraverseThreshold then MoveToFront(s.list, k) else s.list;
      var t := Take(s.(list := l, cache := b, reserved := Unreserve(s, b)), b).0;
      Inv(t) && Outstanding(t) == Outstanding(s) + 1
  {
    if k > TraverseThreshold {
      AllocateByScanMoved(s, k);
    } else {
      AllocateByScanInPlace(s, k);
    }
  }

  /** The found block is moved to the head before it serves. */
  lemma AllocateByScanMoved<B>(s: Slabs<B>, k: nat)
    requires Inv(s) && k < |s.list| && s.mask[s.list[k]] != 0
    ensures var b := s.list[k];
      var t := Take(s.(list := MoveToFront(s.list, k), cache := b, reserved := Unreserve(s, b)), b).0;
      Inv(t) && Outstanding(t) == Outstanding(s) + 1
  {
    var b := s.list[k];
    MoveFacts(s, k);
    TakeFacts(s.(list := MoveToFront(s.list, k), cache := b, reserved := Unreserve(s, b)), b);
  }

  /** The found block serves where it stands. */
  lemma AllocateByScanInPlace<B>(s: Slabs<B>, k: nat)
    requires Inv(s) && k < |s.list| && s.mask[s.list[k]] != 0
    ensures var b := s.list[k];
      var t := Take(s.(cache := b, reserved := Unreserve(s, b)), b).0;
      Inv(t) && Outstanding(t) == Outstanding(s) + 1
  {
    var b := s.list[k];
    TakeFacts(s.(cache := b, reserved := Unreserve(s, b)), b);
  }

  /** When the cache has a free unit, `allocate` serves from it and touches nothing else. */
  lemma AllocateFromCache<B>(s: Slabs<B>, spare: Option<B>)
    requires Wf(s) && (spare.Some? ==> spare.value !in s.mask)
    requires s.mask[s.cache] != 0
    ensures var (t, p) := Allocate(s, spare);
      p.Payload? && p.block == s.cache && t.list == s.list && t.cache == s.cache &&
      t.total == s.total && t.reserved == s.reserved - Empty(s.mask[s.cache])
    ensures Allocate(s, spare) == Take(s.(reserved := Unreserve(s, s.cache)), s.cache)
  {
  }

  /**
   * When the cache is full and position `k` holds the first non-full block,
   * `allocate` serves from that block and caches it; the block moves to the
   * head exactly when more than TraverseThreshold full blocks precede it.
   */
  lemma AllocateFromList<B>(s: Slabs<B>, spare: Option<B>, k: nat)
    requires Wf(s) && (spare.Some? ==> spare.value !in s.mask)
    requires s.mask[s.cache] == 0
    requires k < |s.list| && s.mask[s.list[k]] != 0
    requires forall j :: 0 <= j < k ==> s.mask[s.list[j]] == 0
    ensures var (t, p) := Allocate(s, spare);
      p.Payload? && p.block == s.list[k] && t.cache == s.list[k] &&
      t.total == s.total && t.reserved == s.reserved - Empty(s.mask[s.list[k]]) &&
      (k > TraverseThreshold ==> t.list == [s.list[k]] + s.list[..k] + s.list[k + 1..]) &&
      (k <= TraverseThreshold ==> t.list == s.list)
    ensures Allocate(s, spare) == ServeFound(s, k)
  {
    var k' := FirstNonFull(s.list, s.mask, 0);
    assert k' == k;
  }

  /**
   * When every block is full, `allocate` pushes a new block at the head,
   * caches it and serves from it; without raw memory it changes nothing.
   */
  lemma AllocateWhenAllFull<B>(s: Slabs<B>, spare: Option<B>)
    requires Wf(s) && (spare.Some? ==> spare.value !in s.mask)
    requires forall j :: 0 <= j < |s.list| ==> s.mask[s.list[j]] == 0
    ensures var (t, p) := Allocate(s, spare);
      (spare.None? ==> t == s && p.Null?) &&
      (spare.Some? ==>
         p.Payload? && p.block == spare.value && t.list == [spare.value] + s.list &&
         t.cache == spare.value && t.total == s.total + 1 && t.reserved == s.reserved)
    ensures spare.Some? ==> Allocate(s, spare) == Take(Push(s, spare.value), spare.value)
  {
    var k := FirstNonFull(s.list, s.mask, 0);
    assert k == |s.list|;
  }

  /** A new block is only ever created when every listed block is full. */
  lemma AllocateCreatesOnlyWhenFull<B>(s: Slabs<B>, spare: Option<B>)
    requires Wf(s) && (spare.Some? ==> spare.value !in s.mask)
    ensures var (t, p) := Allocate(s, spare);
      p.Payload? && p.block !in s.mask ==> (forall j :: 0 <= j < |s.list| ==> s.mask[s.list[j]] == 0)
  {
    if s.mask[s.cache] == 0 {
      var k := FirstNonFull(s.list, s.mask, 0);
      if k < |s.list| {
        AllocateFromList(s, spare, k);
      }
    }
  }

  /**
   * Unit `i` of block `b`, whose mask was `w`, was handed out from `s`
   * leaving `t`: it was the lowest free unit, its bit is now clear, and every
   * other bit of every block is unchanged.
   */
  ghost predicate HandedOut<B>(s: Slabs<B>, t: Slabs<B>, b: B, i: bv6, w: bv64)
  {
    Bit(w, i) == 1 && (forall j: bv6 :: j < i ==> Bit(w, j) == 0) &&
    b in t.mask && t.mask[b] == SetZero(w, i) &&
    forall c :: c in s.mask && c != b ==> c in t.mask && t.mask[c] == s.mask[c]
  }

  lemma TakeHandsOut<B>(s: Slabs<B>, s1: Slabs<B>, b: B)
    requires b in s1.mask && s1.mask[b] != 0
    requires forall c :: c in s.mask && c != b ==> c in s1.mask && s1.mask[c] == s.mask[c]
    ensures var (t, p) := Take(s1, b);
      p.Payload? && p.block == b && p.index < 64 && HandedOut(s, t, b, p.index as bv6, s1.mask[b])
  {
    var i := Ctz64(s1.mask[b]);
    assert (i as bv32) as bv6 == i && i as bv32 < 64;
    assert Take(s1, b).0.mask == s1.mask[b := SetZero(s1.mask[b], i)];
  }

  /**
   * The unit `allocate` hands out is the lowest free unit of its block
   * (a new block counts as all free); its bit is cleared and every other bit
   * of every block is unchanged.
   */
  lemma AllocateTakesLowestFree<B>(s: Slabs<B>, spare: Option<B>)
    requires Wf(s) && (spare.Some? ==> spare.value !in s.mask)
    ensures var r := Allocate(s, spare);
      r.1.Payload? ==> (r.1.index < 64 &&
        HandedOut(s, r.0, r.1.block, r.1.index as bv6, if r.1.block in s.mask then s.mask[r.1.block] else ALL))
  {
    if s.mask[s.cache] != 0 {
      LowestFreeOfCache(s, spare);
    } else if FirstNonFull(s.list, s.mask, 0) == |s.list| {
      if spare.Some? {
        assert Allocate(s, spare) == Take(Push(s, spare.value), spare.value);
        LowestFreeOfNewBlock(s, spare.value);
      }
    } else {
      LowestFreeOfFound(s, spare);
    }
  }

  lemma LowestFreeOfCache<B>(s: Slabs<B>, spare: Option<B>)
    requires Wf(s) && (spare.Some? ==> spare.value !in s.mask) && s.mask[s.cache] != 0
    ensures var (t, p) := Allocate(s, spare);
      p.Payload? && p.block == s.cache && p.index < 64 && HandedOut(s, t, s.cache, p.index as bv6, s.mask[s.cache])
  {
    TakeHandsOut(s, s.(reserved := Unreserve(s, s.cache)), s.cache);
  }

  lemma LowestFreeOfFound<B>(s: Slabs<B>, spare: Option<B>)
    requires Wf(s) && (spare.Some? ==> spare.value !in s.mask) && s.mask[s.cache] == 0
    requires FirstNonFull(s.list, s.mask, 0) < |s.list|
    ensures var (t, p) := Allocate(s, spare);
      p.Payload? && p.block in s.mask && p.index < 64 && HandedOut(s, t, p.block, p.index as bv6, s.mask[p.block])
  {
    var k := FirstNonFull(s.list, s.mask, 0);
    LowestFreeFromList(s, k);
  }

  lemma LowestFreeOfNewBlock<B>(s: Slabs<B>, nb: B)
    requires Wf(s) && nb !in s.mask
    ensures var (t, p) := Take(Push(s, nb), nb);
      p.Payload? && p.block == nb && p.index < 64 && HandedOut(s, t, nb, p.index as bv6, ALL)
  {
    PushWf(s, nb);
    TakeHandsOut(s, Push(s, nb), nb);
  }

  lemma LowestFreeFromList<B>(s: Slabs<B>, k: nat)
    requires Wf(s) && k < |s.list| && s.mask[s.list[k]] != 0
    ensures var (t, p) := ServeFound(s, k);
      p.Payload? && p.block == s.list[k] && p.index < 64 && HandedOut(s, t, p.block, p.index as bv6, s.mask[p.block])
  {
    var b := s.list[k];
    var t := Moved(s, k);
    ServeFoundMoved(s, k);
    TakeHandsOut(s, t.(reserved := Unreserve(t, b)), b);
  }

  // ---------------------------------------------------------------------------
  // deallocate

  lemma {:induction false} EmptyCountBound<B>(l: seq<B>, m: map<B, bv64>)
    requires Covered(l, m)
    ensures Sum(l, m, Empty) <= |l|
    decreases |l|
  {
    if |l| > 0 {
      EmptyCountBound(l[1..], m);
    }
  }

  /** A list holding a block that is not empty has fewer empty blocks than blocks. */
  lemma {:induction false} EmptyCountBelow<B>(l: seq<B>, m: map<B, bv64>, b: B)
    requires Covered(l, m) && b in l && m[b] != ALL
    ensures Sum(l, m, Empty) < |l|
    decreases |l|
  {
    if l[0] == b {
      EmptyCountBound(l[1..], m);
    } else {
      EmptyCountBelow(l[1..], m, b);
    }
  }

  /**
   * Eviction happens with `reserved_count` above a limit of at least 1 while
   * the block being freed still had unit `i` allocated, so another block is
   * empty and the list holds at least two blocks.
   */
  lemma EvictionLeavesABlock<B>(s: Slabs<B>, b: B, i: bv6)
    requires Wf(s) && b in s.mask && Get(s.mask[b], i) == 0 && EmptyCount(s) >= 1
    ensures |s.list| >= 2
  {
    AllBit(i);
    EmptyCountBelow(s.list, s.mask, b);
  }

  /** `deallocate`'s unlink and destroy of empty block `b`. */
  function Evict<B>(s: Slabs<B>, b: B): (t: Slabs<B>)
    requires b in s.list && |s.list| >= 2
  {
    var l := RemoveAt(s.list, IndexOf(s.list, b));
    s.(list := l, mask := s.mask - {b}, total := s.total - 1, reserved := s.reserved - 1,
       cache := if s.cache == b then l[0] else s.cache)
  }

  /** The unit `p` names can be returned: a listed block, an index below 64, an allocated unit. */
  predicate Returnable<B>(s: Slabs<B>, p: Ptr<B>)
  {
    p.Payload? && p.index < 64 && p.block in s.mask && Get(s.mask[p.block], p.index as bv6) == 0
  }

  /**
   * `deallocate`: ignore a null pointer, an index of 64 or more, a block of
   * another allocator and a unit that is already free; otherwise free the
   * unit, count the block when it becomes empty, and evict it when that
   * count then exceeds the limit.
   */
  function Deallocate<B>(s: Slabs<B>, p: Ptr<B>): (t: Slabs<B>)
    requires Inv(s)
  {
    if !Returnable(s, p) then s
    else
      var b := p.block;
      var w := SetOne(s.mask[b], p.index as bv6);
      var s1 := s.(mask := s.mask[b := w]);
      if w != ALL then s1
      else if s.reserved + 1 <= s.limit then s1.(reserved := s.reserved + 1)
      else
        EvictionLeavesABlock(s, b, p.index as bv6);
        Evict(s1.(reserved := s.reserved + 1), b)
  }

  /** Returning allocated unit `i` of block `b`: only its bit changes, one unit fewer is out. */
  lemma FreeUnitFacts<B>(s: Slabs<B>, b: B, i: bv6)
    requires Wf(s) && b in s.mask && Get(s.mask[b], i) == 0
    ensures var t := s.(mask := s.mask[b := SetOne(s.mask[b], i)]);
      Wf(t) && EmptyCount(t) == EmptyCount(s) + Empty(SetOne(s.mask[b], i)) &&
      Outstanding(t) + 1 == Outstanding(s)
  {
    var w := s.mask[b];
    AllBit(i);
    SumUpdate(s.list, s.mask, b, SetOne(w, i), Empty);
    SumUpdate(s.list, s.mask, b, SetOne(w, i), InUse);
    InUseSetOne(w, i);
  }

  lemma EvictWf<B>(s: Slabs<B>, b: B)
    requires Wf(s) && b in s.mask && |s.list| >= 2
    ensures Wf(Evict(s, b)) && b !in Evict(s, b).mask
  {
    var k := IndexOf(s.list, b);
    RemoveAtDistinct(s.list, k);
  }

  /** Evicting an empty block leaves one empty block fewer. */
  lemma EvictEmptyCount<B>(s: Slabs<B>, b: B)
    requires Wf(s) && b in s.mask && |s.list| >= 2 && s.mask[b] == ALL
    requires Wf(Evict(s, b))
    ensures EmptyCount(Evict(s, b)) + 1 == EmptyCount(s)
  {
    var k := IndexOf(s.list, b);
    var t := Evict(s, b);
    SumRemoveAt(s.list, k, s.mask, Empty);
    SumFrame(t.list, s.mask, t.mask, Empty);
  }

  /** Evicting an empty block loses no allocated unit. */
  lemma EvictOutstanding<B>(s: Slabs<B>, b: B)
    requires Wf(s) && b in s.mask && |s.list| >= 2 && s.mask[b] == ALL
    requires Wf(Evict(s, b))
    ensures Outstanding(Evict(s, b)) == Outstanding(s)
  {
    var k := IndexOf(s.list, b);
    var t := Evict(s, b);
    SumRemoveAt(s.list, k, s.mask, InUse);
    SumFrame(t.list, s.mask, t.mask, InUse);
    EmptyHasNoneInUse();
  }

  /** `deallocate` keeps the invariant. */
  lemma DeallocateKeepsInv<B>(s: Slabs<B>, p: Ptr<B>)
    requires Inv(s)
    ensures Inv(Deallocate(s, p))
  {
    DeallocateReturnsOne(s, p);
  }

  /**
   * Returning a unit keeps the invariant and puts one unit fewer out,
   * whether or not its block is then evicted.
   */
  lemma DeallocateReturnsOne<B>(s: Slabs<B>, p: Ptr<B>)
    requires Inv(s)
    ensures Inv(Deallocate(s, p))
    ensures Returnable(s, p) ==> Outstanding(Deallocate(s, p)) + 1 == Outstanding(s)
  {
    if Returnable(s, p) {
      var b := p.block;
      var i := p.index as bv6;
      assert p == Payload(b, i as bv32);
      if SetOne(s.mask[b], i) != ALL {
        ReturnsOnePartial(s, b, i);
      } else if s.reserved + 1 <= s.limit {
        ReturnsOneCounted(s, b, i);
      } else {
        ReturnsOneEvicted(s, b, i);
      }
    }
  }

  /** Returning unit `i` of block `b` that stays partly used keeps the invariant. */
  lemma ReturnsOnePartial<B>(s: Slabs<B>, b: B, i: bv6)
    requires Inv(s) && b in s.mask && Get(s.mask[b], i) == 0 && SetOne(s.mask[b], i) != ALL
    ensures Inv(Deallocate(s, Payload(b, i as bv32)))
    ensures Outstanding(Deallocate(s, Payload(b, i as bv32))) + 1 == Outstanding(s)
  {
    DeallocatePartial(s, b, i);
    FreeUnitFacts(s, b, i);
  }

  /** Returning the last allocated unit of block `b` while the reserve has room keeps the invariant. */
  lemma ReturnsOneCounted<B>(s: Slabs<B>, b: B, i: bv6)
    requires Inv(s) && b in s.mask && Get(s.mask[b], i) == 0 && SetOne(s.mask[b], i) == ALL
    requires s.reserved + 1 <= s.limit
    ensures Inv(Deallocate(s, Payload(b, i as bv32)))
    ensures Outstanding(Deallocate(s, Payload(b, i as bv32))) + 1 == Outstanding(s)
  {
    DeallocateCounts(s, b, i);
    FreeUnitFacts(s, b, i);
  }

  /** Returning the last allocated unit of block `b` with the reserve full keeps the invariant. */
  lemma ReturnsOneEvicted<B>(s: Slabs<B>, b: B, i: bv6)
    requires Inv(s) && b in s.mask && Get(s.mask[b], i) == 0 && SetOne(s.mask[b], i) == ALL
    requires s.reserved + 1 > s.limit
    ensures Inv(Deallocate(s, Payload(b, i as bv32)))
    ensures Outstanding(Deallocate(s, Payload(b, i as bv32))) + 1 == Outstanding(s)
  {
    DeallocateEvictStep(s, b, i);
    FreeUnitFacts(s, b, i);
    EvictKeepsInv(s.(mask := s.mask[b := ALL], reserved := s.reserved + 1), b);
  }

  /**
   * Evicting an empty block that took the empty count one past the limit
   * keeps the invariant and loses no allocated unit.
   */
  lemma EvictKeepsInv<B>(s: Slabs<B>, b: B)
    requires Wf(s) && b in s.mask && |s.list| >= 2 && s.mask[b] == ALL
    requires s.total == |s.list| && s.reserved == EmptyCount(s) && 1 <= s.limit && s.reserved <= s.limit + 1
    ensures Inv(Evict(s, b)) && Outstanding(Evict(s, b)) == Outstanding(s)
  {
    EvictWf(s, b);
    EvictEmptyCount(s, b);
    EvictOutstanding(s, b);
  }

  /**
   * `deallocate` changes the state exactly when `p` refers to an
   * allocated unit of a listed block; every rejected pointer is a no-op.
   */
  lemma DeallocateChangesIffReturnable<B>(s: Slabs<B>, p: Ptr<B>)
    requires Inv(s)
    ensures Deallocate(s, p) != s <==> Returnable(s, p)
  {
    if Returnable(s, p) {
      var b := p.block;
      var i := p.index as bv6;
      assert p == Payload(b, i as bv32);
      ReturningChanges(s, b, i);
    }
  }

  /** Returning allocated unit `i` of listed block `b` changes the state, on every path. */
  lemma ReturningChanges<B>(s: Slabs<B>, b: B, i: bv6)
    requires Inv(s) && b in s.mask && Get(s.mask[b], i) == 0
    ensures Deallocate(s, Payload(b, i as bv32)) != s
  {
    if SetOne(s.mask[b], i) != ALL {
      DeallocatePartial(s, b, i);
    } else if s.reserved + 1 <= s.limit {
      DeallocateCounts(s, b, i);
    } else {
      DeallocateEvictStep(s, b, i);
      EvictWf(s.(mask := s.mask[b := ALL], reserved := s.reserved + 1), b);
    }
  }

  /** Returning allocated unit `i` of listed block `b` that stays partly used: only its bit changes. */
  lemma DeallocatePartial<B>(s: Slabs<B>, b: B, i: bv6)
    requires Inv(s) && b in s.mask && Get(s.mask[b], i) == 0 && SetOne(s.mask[b], i) != ALL
    ensures Deallocate(s, Payload(b, i as bv32)) == s.(mask := s.mask[b := SetOne(s.mask[b], i)])
  {
    assert (i as bv32) as bv6 == i;
  }

  /** Returning the last allocated unit of block `b` while the reserve has room: the block is counted. */
  lemma DeallocateCounts<B>(s: Slabs<B>, b: B, i: bv6)
    requires Inv(s) && b in s.mask && Get(s.mask[b], i) == 0 && SetOne(s.mask[b], i) == ALL
    requires s.reserved + 1 <= s.limit
    ensures Deallocate(s, Payload(b, i as bv32)) == s.(mask := s.mask[b := ALL], reserved := s.reserved + 1)
  {
    assert (i as bv32) as bv6 == i;
  }

  /** Returning the last allocated unit of block `b` with the reserve full: the block is evicted. */
  lemma DeallocateEvictStep<B>(s: Slabs<B>, b: B, i: bv6)
    requires Inv(s) && b in s.mask && Get(s.mask[b], i) == 0 && SetOne(s.mask[b], i) == ALL
    requires s.reserved + 1 > s.limit
    ensures |s.list| >= 2
    ensures Deallocate(s, Payload(b, i as bv32)) ==
      Evict(s.(mask := s.mask[b := ALL], reserved := s.reserved + 1), b)
  {
    assert (i as bv32) as bv6 == i;
    EvictionLeavesABlock(s, b, i);
  }

  /**
   * Returning a unit sets exactly its bit: every other block keeps its mask,
   * and the block itself keeps every other bit unless it is evicted.
   */
  lemma DeallocateSetsOneBit<B>(s: Slabs<B>, p: Ptr<B>)
    requires Inv(s) && Returnable(s, p)
    ensures var t := Deallocate(s, p);
      (forall c :: c in t.mask ==> c in s.mask) &&
      (forall c :: c in s.mask && c != p.block ==> c in t.mask && t.mask[c] == s.mask[c]) &&
      (p.block in t.mask ==> t.mask[p.block] == SetOne(s.mask[p.block], p.index as bv6))
  {
  }

  /**
   * No double free: once a pointer has been given back, giving it back
   * again is ignored, whether its block was kept or evicted.
   */
  lemma DeallocateTwiceIgnored<B>(s: Slabs<B>, p: Ptr<B>)
    requires Inv(s)
    ensures Inv(Deallocate(s, p))
    ensures Deallocate(Deallocate(s, p), p) == Deallocate(s, p)
  {
    DeallocateKeepsInv(s, p);
    if Returnable(s, p) {
      DeallocateSetsOneBit(s, p);
      assert !Returnable(Deallocate(s, p), p);
    }
  }

  /**
   * A block that becomes empty while the reserve has room is kept, listed
   * where it was, and counted in `reserved_count`.
   */
  lemma DeallocateRetains<B>(s: Slabs<B>, p: Ptr<B>)
    requires Inv(s) && Returnable(s, p)
    requires SetOne(s.mask[p.block], p.index as bv6) == ALL && s.reserved + 1 <= s.limit
    ensures var t := Deallocate(s, p);
      t.list == s.list && t.cache == s.cache && t.total == s.total &&
      t.reserved == s.reserved + 1 && t.mask[p.block] == ALL
  {
  }

  /**
   * A block that becomes empty while the reserve is at its limit is
   * unlinked and destroyed: the other blocks keep their order, at least one
   * block remains, `total_count` drops by one, `reserved_count` ends where it
   * began, and a cache that pointed at the block moves to the head.
   */
  lemma DeallocateEvicts<B>(s: Slabs<B>, p: Ptr<B>)
    requires Inv(s) && Returnable(s, p)
    requires SetOne(s.mask[p.block], p.index as bv6) == ALL && s.reserved + 1 > s.limit
    ensures |s.list| >= 2
    ensures var t := Deallocate(s, p);
      var k := IndexOf(s.list, p.block);
      t.list == s.list[..k] + s.list[k + 1..] && |t.list| >= 1 && p.block !in t.mask &&
      t.total == s.total - 1 && t.reserved == s.reserved &&
      t.cache == (if s.cache == p.block then t.list[0] else s.cache)
  {
    EvictionLeavesABlock(s, p.block, p.index as bv6);
  }

  /**
   * The allocation round trip: the unit `allocate` hands out can be given
   * back, and giving it back restores the number of units out while keeping
   * the invariant.
   */
  lemma AllocateThenDeallocate<B>(s: Slabs<B>, spare: Option<B>)
    requires Inv(s) && (spare.Some? ==> spare.value !in s.mask)
    ensures var r := Allocate(s, spare);
      r.1.Payload? ==>
        (Inv(r.0) && Returnable(r.0, r.1) &&
         Inv(Deallocate(r.0, r.1)) && Outstanding(Deallocate(r.0, r.1)) == Outstanding(s))
  {
    var r := Allocate(s, spare);
    AllocateKeepsInv(s, spare);
    AllocateTakesLowestFree(s, spare);
    if r.1.Payload? {
      ReturnHandedOut(s, r.0, r.1, if r.1.block in s.mask then s.mask[r.1.block] else ALL);
    }
  }

  /** A unit just handed out from mask `w` can be returned, restoring the number of units out. */
  lemma ReturnHandedOut<B>(s: Slabs<B>, t: Slabs<B>, p: Ptr<B>, w: bv64)
    requires Wf(s) && Inv(t) && p.Payload? && p.index < 64 && HandedOut(s, t, p.block, p.index as bv6, w)
    requires Outstanding(t) == Outstanding(s) + 1
    ensures Returnable(t, p) && Inv(Deallocate(t, p)) && Outstanding(Deallocate(t, p)) == Outstanding(s)
  {
    DeallocateReturnsOne(t, p);
  }

  // ---------------------------------------------------------------------------
  // prepare_bulk

  /** The first position at or after `j` whose block has at least `count` free units, or `|l|`. */
  function FirstWithFree<B>(l: seq<B>, m: map<B, bv64>, count: nat, j: nat): (k: nat)
    requires Covered(l, m) && j <= |l|
    ensures j <= k <= |l|
    ensures k < |l| ==> Popcnt64(m[l[k]]) >= count
    decreases |l| - j
  {
    if j == |l| || Popcnt64(m[l[j]]) >= count then j else FirstWithFree(l, m, count, j + 1)
  }

  /** Every block the walk passes has fewer than `count` free units. */
  lemma {:induction false} FirstWithFreeSkips<B>(l: seq<B>, m: map<B, bv64>, count: nat, j: nat)
    requires Covered(l, m) && j <= |l|
    ensures forall i :: j <= i < FirstWithFree(l, m, count, j) ==> Popcnt64(m[l[i]]) < count
    decreases |l| - j
  {
    if j < |l| && Popcnt64(m[l[j]]) < count {
      FirstWithFreeSkips(l, m, count, j + 1);
    }
  }

  /**
   * `prepare_bulk` as the source writes it: refuse a count above 64; cache
   * the first block with at least `count` free units; failing that, push a
   * new block at the head and cache it, counting it in `total_count` only.
   */
  function PrepareBulkAsWritten<B>(s: Slabs<B>, count: nat, spare: Option<B>): (r: (bool, Slabs<B>))
    requires Wf(s) && (spare.Some? ==> spare.value !in s.mask)
    ensures r.0 ==> count <= 64 && r.1.reserved == s.reserved
    ensures !r.0 ==> r.1 == s
  {
    if count > 64 then (false, s)
    else
      var k := FirstWithFree(s.list, s.mask, count, 0);
      if k < |s.list| then (true, s.(cache := s.list[k]))
      else
        match spare
        case None => (false, s)
        case Some(nb) => (true, Push(s, nb))
  }

  /**
   * `prepare_bulk` with the new empty block also counted in
   * `reserved_count`, as every other path that adds or empties a block does.
   */
  function PrepareBulk<B>(s: Slabs<B>, count: nat, spare: Option<B>): (r: (bool, Slabs<B>))
    requires Wf(s) && (spare.Some? ==> spare.value !in s.mask)
    ensures r.0 ==> count <= 64
    ensures !r.0 ==> r.1 == s
    ensures r.1.reserved == s.reserved + (if r.1.cache in s.mask then 0 else 1)
  {
    var (ok, t) := PrepareBulkAsWritten(s, count, spare);
    (ok, if |t.list| > |s.list| then t.(reserved := t.reserved + 1) else t)
  }

  /**
   * What `prepare_bulk` promises: a count above 64 is refused with no
   * change; on success the cache has at least `count` free units and is
   * either the first such listed block (list unchanged) or a new block at
   * the head, created only when no listed block qualified; on failure
   * nothing changes.
   */
  lemma PrepareBulkCaches<B>(s: Slabs<B>, count: nat, spare: Option<B>)
    requires Wf(s) && (spare.Some? ==> spare.value !in s.mask)
    ensures var (ok, t) := PrepareBulk(s, count, spare);
      (count > 64 ==> !ok) &&
      (!ok ==> t == s) &&
      (ok ==> t.cache in t.mask && Popcnt64(t.mask[t.cache]) >= count) &&
      (ok && t.cache in s.mask ==>
         t.list == s.list && t.mask == s.mask && t.total == s.total && t.reserved == s.reserved &&
         forall j :: 0 <= j < IndexOf(s.list, t.cache) ==> Popcnt64(s.mask[s.list[j]]) < count) &&
      (ok && t.cache !in s.mask ==>
         (forall j :: 0 <= j < |s.list| ==> Popcnt64(s.mask[s.list[j]]) < count) &&
         t.list == [t.cache] + s.list && t.mask == s.mask[t.cache := ALL] &&
         t.total == s.total + 1 && t.reserved == s.reserved + 1)
  {
    if count <= 64 {
      var k := FirstWithFree(s.list, s.mask, count, 0);
      FirstWithFreeSkips(s.list, s.mask, count, 0);
      if k < |s.list| {
        var j := IndexOf(s.list, s.list[k]);
        assert j == k;
      } else {
        PopcntFull(ALL);
      }
    }
  }

  lemma {:induction false} NoEmptyBlock<B>(l: seq<B>, m: map<B, bv64>)
    requires Covered(l, m)
    requires forall j :: 0 <= j < |l| ==> m[l[j]] != ALL
    ensures Sum(l, m, Empty) == 0
    decreases |l|
  {
    if |l| > 0 {
      NoEmptyBlock(l[1..], m);
    }
  }

  /**
   * `prepare_bulk` keeps the invariant: it only creates a block when no
   * block has `count` free units, so with `count` at least 1 no block was
   * empty and the new one brings `reserved_count` to 1.
   */
  lemma PrepareBulkKeepsInv<B>(s: Slabs<B>, count: nat, spare: Option<B>)
    requires Inv(s) && (spare.Some? ==> spare.value !in s.mask)
    ensures Inv(PrepareBulk(s, count, spare).1)
    ensures Outstanding(PrepareBulk(s, count, spare).1) == Outstanding(s)
  {
    if count <= 64 {
      var k := FirstWithFree(s.list, s.mask, count, 0);
      if k == |s.list| && spare.Some? {
        var nb := spare.value;
        assert PrepareBulk(s, count, spare).1 == Push(s, nb).(reserved := s.reserved + 1);
        PushCounted(s, nb, count);
        PushOutstanding(s, nb);
      }
    }
  }

  /** `prepare_bulk` for more than 64 units: refused, nothing changes. */
  lemma PrepareBulkTooMany<B>(s: Slabs<B>, count: nat, spare: Option<B>)
    requires Wf(s) && (spare.Some? ==> spare.value !in s.mask) && count > 64
    ensures PrepareBulk(s, count, spare) == (false, s)
  {
  }

  /** `prepare_bulk` when listed block `k` is the first with `count` free units: it is cached. */
  lemma PrepareBulkFound<B>(s: Slabs<B>, count: nat, k: nat)
    requires Inv(s) && count <= 64 && k < |s.list| && FirstWithFree(s.list, s.mask, count, 0) == k
    ensures PrepareBulk(s, count, None) == (true, s.(cache := s.list[k]))
    ensures Inv(s.(cache := s.list[k]))
  {
    assert EmptyCount(s.(cache := s.list[k])) == EmptyCount(s);
  }

  /** `prepare_bulk` when no listed block has `count` free units and raw memory is refused: failure. */
  lemma PrepareBulkRefused<B>(s: Slabs<B>, count: nat)
    requires Wf(s) && count <= 64 && FirstWithFree(s.list, s.mask, count, 0) == |s.list|
    ensures PrepareBulk(s, count, None) == (false, s)
  {
  }

  /** `prepare_bulk` when no listed block has `count` free units: new block `nb`, counted as empty. */
  lemma PrepareBulkPushes<B>(s: Slabs<B>, count: nat, nb: B)
    requires Wf(s) && nb !in s.mask && count <= 64 && FirstWithFree(s.list, s.mask, count, 0) == |s.list|
    ensures PrepareBulk(s, count, Some(nb)) == (true, Push(s, nb).(reserved := s.reserved + 1))
  {
  }

  /** Pushing a counted empty block when no block has `count` (at most 64) free units. */
  lemma PushCounted<B>(s: Slabs<B>, nb: B, count: nat)
    requires Inv(s) && nb !in s.mask && count <= 64
    requires FirstWithFree(s.list, s.mask, count, 0) == |s.list|
    ensures Inv(Push(s, nb).(reserved := s.reserved + 1))
  {
    PopcntFull(ALL);
    FirstWithFreeSkips(s.list, s.mask, count, 0);
    NoEmptyBlock(s.list, s.mask);
    PushWf(s, nb);
    PushEmptyCount(s, nb);
  }

  /**
   * The finding: from a new allocator, one allocation leaves the head with
   * 63 free units, so `prepare_bulk(64)` as written pushes a new empty block
   * without counting it; the next allocation is served from that block and
   * takes `reserved_count` from 0 to -1, which a 32-bit counter holds as
   * 4294967295, far above any limit.
   */
  lemma PrepareBulkAsWrittenMiscounts<B>(a: B, nb: B)
    requires a != nb
    ensures var s1 := Allocate(Init(a, 4), None).0;
      Inv(s1) && nb !in s1.mask &&
      (var s2 := PrepareBulkAsWritten(s1, 64, Some(nb)).1;
       Wf(s2) && s2.reserved == 0 && EmptyCount(s2) == 1 && !Inv(s2) &&
       (var s3 := Allocate(s2, None).0;
        s3.reserved == -1 && s3.reserved % 0x1_0000_0000 == 0xFFFF_FFFF))
  {
    var s0 := Init(a, 4);
    AllocateKeepsInv(s0, None);
    AllBit(0);
    assert Ctz64(ALL) == 0;
    var s1 := Allocate(s0, None).0;
    assert s1.mask[a] == SetZero(ALL, 0);
    ClearedIsNotAll(ALL, 0);
    PopcntSetZero(ALL, 0);
    PopcntFull(ALL);
    assert Popcnt64(s1.mask[a]) == 63;
    var s2 := PrepareBulkAsWritten(s1, 64, Some(nb)).1;
    assert FirstWithFree(s1.list, s1.mask, 64, 0) == 1;
    assert s2 == Push(s1, nb);
    PushWf(s1, nb);
    PushEmptyCount(s1, nb);
  }

  /**
   * The corrected `prepare_bulk` on the same run keeps the invariant, and
   * the following allocation brings `reserved_count` back to 0.
   */
  lemma PrepareBulkCorrectedCounts<B>(a: B, nb: B)
    requires a != nb
    ensures var s1 := Allocate(Init(a, 4), None).0;
      Inv(s1) && nb !in s1.mask &&
      (var s2 := PrepareBulk(s1, 64, Some(nb)).1;
       Inv(s2) && s2.reserved == 1 &&
       (var s3 := Allocate(s2, None).0;
        Inv(s3) && s3.reserved == 0))
  {
    var s0 := Init(a, 4);
    AllocateKeepsInv(s0, None);
    var s1 := Allocate(s0, None).0;
    PrepareBulkKeepsInv(s1, 64, Some(nb));
    var s2 := PrepareBulk(s1, 64, Some(nb)).1;
    AllBit(0);
    assert Ctz64(ALL) == 0;
    ClearedIsNotAll(ALL, 0);
    PopcntSetZero(ALL, 0);
    PopcntFull(ALL);
    assert FirstWithFree(s1.list, s1.mask, 64, 0) == 1;
    AllocateKeepsInv(s2, None);
  }

  /**
   * The promise behind `prepare_bulk`: while the cache has at least `n` free
   * units, the next `n` allocations are all served from it, with no block
   * created, moved or counted, even when no raw memory is available.
   */
  lemma {:induction false} CacheServesNext<B>(s: Slabs<B>, n: nat)
    requires Inv(s) && Popcnt64(s.mask[s.cache]) >= n
    ensures AllocateMany(s, n).0.list == s.list
    ensures AllocateMany(s, n).0.cache == s.cache
    ensures forall p :: p in AllocateMany(s, n).1 ==> p.Payload? && p.block == s.cache
    decreases n
  {
    if n > 0 {
      PopcntZero(s.mask[s.cache]);
      CacheStep(s);
      AllocateKeepsInv(s, None);
      var (t, p) := Allocate(s, None);
      CacheServesNext(t, n - 1);
      assert AllocateMany(s, n) == (AllocateMany(t, n - 1).0, [p] + AllocateMany(t, n - 1).1);
    }
  }

  /** One allocation served from a non-full cache uses up exactly one of its free units. */
  lemma CacheStep<B>(s: Slabs<B>)
    requires Wf(s) && s.mask[s.cache] != 0
    ensures var (t, p) := Allocate(s, None);
      t.list == s.list && t.cache == s.cache && p.Payload? && p.block == s.cache &&
      Popcnt64(t.mask[t.cache]) + 1 == Popcnt64(s.mask[s.cache])
  {
    var w := s.mask[s.cache];
    AllocateFromCache(s, None);
    TakeShape(s.(reserved := Unreserve(s, s.cache)), s.cache);
    PopcntSetZero(w, Ctz64(w));
  }

  /** `n` allocations in a row with no raw memory available, and the pointers they hand out. */
  function AllocateMany<B>(s: Slabs<B>, n: nat): (r: (Slabs<B>, seq<Ptr<B>>))
    requires Inv(s)
    ensures Inv(r.0) && |r.1| == n
    decreases n
  {
    if n == 0 then (s, [])
    else
      AllocateKeepsInv(s, None);
      var (t, p) := Allocate(s, None);
      var (u, ps) := AllocateMany(t, n - 1);
      (u, [p] + ps)
  }

  // ---------------------------------------------------------------------------
  // reclaim

  /**
   * `reclaim`: destroy every empty block behind the head, keeping the order
   * of the others, drop both counters by the number destroyed and cache the
   * head.
   */
  function Reclaim<B>(s: Slabs<B>): (r: (nat, Slabs<B>))
    requires Wf(s)
    ensures r.0 < |s.list| && |r.1.list| == |s.list| - r.0
    ensures r.1.list[0] == s.list[0] && r.1.cache == s.list[0]
  {
    var head := s.list[0];
    var kept := [head] + NonEmpty(s.list[1..], s.mask);
    var freed := |s.list| - |kept|;
    (freed, s.(list := kept, mask := Restrict(s.mask, kept),
               total := s.total - freed, reserved := s.reserved - freed, cache := head))
  }

  /** `reclaim` with the kept blocks and the number destroyed named. */
  lemma ReclaimOf<B>(s: Slabs<B>, kept: seq<B>, freed: nat)
    requires Wf(s) && kept == [s.list[0]] + NonEmpty(s.list[1..], s.mask) && freed + |kept| == |s.list|
    ensures Reclaim(s) == (freed, s.(list := kept, mask := Restrict(s.mask, kept), total := s.total - freed,
                                     reserved := s.reserved - freed, cache := s.list[0]))
  {
  }

  lemma ReclaimWf<B>(s: Slabs<B>)
    requires Wf(s)
    ensures Wf(Reclaim(s).1)
  {
    var t := Reclaim(s).1;
    var tail := s.list[1..];
    NonEmptyDistinct(tail, s.mask);
    assert s.list[0] !in NonEmpty(tail, s.mask) by {
      assert s.list[0] !in tail;
    }
  }

  /**
   * What `reclaim` does: it returns the number of empty blocks behind the
   * head; the head stays first and cached; the blocks that remain behind it
   * are exactly the non-empty ones, in their old order, with their masks;
   * and both counters drop by the number returned.
   */
  lemma ReclaimFreesEmptyBlocks<B>(s: Slabs<B>)
    requires Wf(s)
    ensures var (freed, t) := Reclaim(s);
      freed == Sum(s.list[1..], s.mask, Empty) &&
      t.list[0] == s.list[0] && t.cache == s.list[0] &&
      t.list[1..] == NonEmpty(s.list[1..], s.mask) &&
      (forall j :: 1 <= j < |t.list| ==> t.mask[t.list[j]] != ALL) &&
      (forall j :: 1 <= j < |s.list| && s.mask[s.list[j]] != ALL ==> s.list[j] in t.list) &&
      (forall b :: b in t.mask ==> b in s.mask && t.mask[b] == s.mask[b]) &&
      t.total == s.total - freed && t.reserved == s.reserved - freed
  {
    var tail := s.list[1..];
    SumNonEmptyCounts(tail, s.mask, Empty);
    var t := Reclaim(s).1;
    assert t.list[1..] == NonEmpty(tail, s.mask);
    forall j | 1 <= j < |s.list| && s.mask[s.list[j]] != ALL
      ensures s.list[j] in t.list
    {
      assert s.list[j] == tail[j - 1];
    }
  }

  /** `reclaim` keeps the invariant and never loses an allocated unit. */
  lemma ReclaimKeepsInv<B>(s: Slabs<B>)
    requires Inv(s)
    ensures Inv(Reclaim(s).1) && Outstanding(Reclaim(s).1) == Outstanding(s)
  {
    ReclaimWf(s);
    ReclaimEmptyCount(s);
    ReclaimOutstanding(s);
  }

  lemma ReclaimEmptyCount<B>(s: Slabs<B>)
    requires Wf(s) && Wf(Reclaim(s).1)
    ensures EmptyCount(Reclaim(s).1) + Reclaim(s).0 == EmptyCount(s)
  {
    var (freed, t) := Reclaim(s);
    var tail := s.list[1..];
    var head := s.list[0];
    var ne := NonEmpty(tail, s.mask);
    SumNonEmptyCounts(tail, s.mask, Empty);
    SumFrame(ne, s.mask, t.mask, Empty);
    assert s.list == [head] + tail;
    SumConcat([head], tail, s.mask, Empty);
    SumConcat([head], ne, t.mask, Empty);
  }

  lemma ReclaimOutstanding<B>(s: Slabs<B>)
    requires Wf(s) && Wf(Reclaim(s).1)
    ensures Outstanding(Reclaim(s).1) == Outstanding(s)
  {
    var t := Reclaim(s).1;
    EmptyHasNoneInUse();
    SumKeepHead(s.list, s.mask, t.list, t.mask, InUse);
  }
}
