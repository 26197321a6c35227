/**
 * The slab allocator as objects: blocks whose free mask changes in place,
 * and an allocator that keeps its block list, cache and counters in fields.
 * Each allocator method is proved to leave the abstract state `View()` that
 * the function of the same name in module Policy computes from the old one,
 * so every property proved there holds of the objects.
 *
 * A block's `next`/`prev` links are the allocator's `list` (head first);
 * `_malloc` succeeding or failing is the `grant` parameter.
 */
module Slab {
  import opened Bits
  import opened Layout
  import opened BlockList
  import Policy

  /**
   * One block: its allocator, the 64 unit headers `construct` writes into
   * its storage (never rewritten afterwards), and its free mask (bit 1 = free).
   */
  class SlabBlock {
    const allocator: SlabAllocator
    const units: seq<SlabUnit>
    var bitMap: bv64

    /** The headers `construct` writes: slot `i` records index `i` and its offset from the block. */
    ghost predicate Formatted(unitMetaSize: nat)
    {
      units == Headers(unitMetaSize)
    }

    /** `construct`: all 64 units free, every slot's header written. */
    constructor (allocator: SlabAllocator, unitMetaSize: nat)
      ensures this.allocator == allocator && bitMap == ALL
      ensures Formatted(unitMetaSize)
    {
      this.allocator := allocator;
      bitMap := ALL;
      var a := new SlabUnit[UnitsPerBlock];
      for i := 0 to UnitsPerBlock
        invariant forall j :: 0 <= j < i ==> a[j] == Headers(unitMetaSize)[j]
      {
        a[i] := Header(unitMetaSize, i as bv6);
      }
      units := a[..];
    }

    /** `create`: a new formatted block when raw memory is granted, null otherwise. */
    static method Create(allocator: SlabAllocator, unitMetaSize: nat, grant: bool) returns (b: SlabBlock?)
      ensures grant <==> b != null
      ensures b != null ==> fresh(b) && b.allocator == allocator &&
                            b.bitMap == ALL && b.Formatted(unitMetaSize)
    {
      if grant {
        b := new SlabBlock(allocator, unitMetaSize);
      } else {
        b := null;
      }
    }

    /** `isFull`: no unit is free. */
    predicate IsFull()
      reads this
      ensures IsFull() <==> Popcnt64(bitMap) == 0
    {
      PopcntZero(bitMap);
      bitMap == 0
    }

    /** `isEmpty`: all 64 units are free. */
    predicate IsEmpty()
      reads this
      ensures IsEmpty() <==> Popcnt64(bitMap) == 64
    {
      PopcntFull(bitMap);
      bitMap == ALL
    }

    /** `isUnitAllocated`: the unit's bit is clear. */
    predicate IsUnitAllocated(index: bv6)
      reads this
      ensures IsUnitAllocated(index) <==> Bit(bitMap, index) == 0
    {
      Get(bitMap, index) == 0
    }

    /**
     * `getUnitByIndex`: the header of slot `index`, which lies inside the
     * block; in a formatted block, the header stored there names the slot and
     * leads `getBlockFromUnit` back to this block.
     */
    function GetUnitByIndex(unitMetaSize: nat, index: bv6): (a: Addr<SlabBlock>)
      ensures a == UnitAt(this, unitMetaSize, index)
      ensures BlockHeaderSize <= a.offset && a.offset + unitMetaSize <= BlockSize(unitMetaSize)
      ensures Formatted(unitMetaSize) ==>
                |units| == UnitsPerBlock && units[index as int] == Header(unitMetaSize, index) &&
                units[index as int].index as bv6 == index &&
                units[index as int].offset <= a.offset && BlockFromUnit(a, units[index as int]) == Addr(this, 0)
    {
      HeadersRecordSlots(unitMetaSize, index as nat);
      UnitAt(this, unitMetaSize, index)
    }

    /**
     * `allocateUnit`: claim the lowest free unit of a block that is not full;
     * only its bit changes.
     */
    method AllocateUnit() returns (index: bv6)
      requires bitMap != 0
      modifies this
      ensures Bit(old(bitMap), index) == 1
      ensures forall j: bv6 :: j < index ==> Bit(old(bitMap), j) == 0
      ensures index == Ctz64(old(bitMap)) && bitMap == SetZero(old(bitMap), index)
      ensures Get(bitMap, index) == 0 && forall j: bv6 :: j != index ==> Get(bitMap, j) == Get(old(bitMap), j)
      ensures Popcnt64(bitMap) + 1 == Popcnt64(old(bitMap))
    {
      index := Ctz64(bitMap);
      PopcntSetZero(bitMap, index);
      ClearKeepsOthers(bitMap, index);
      bitMap := SetZero(bitMap, index);
    }

    /** `deallocateUnit`: mark a unit free again; only its bit changes. */
    method DeallocateUnit(index: bv6)
      modifies this
      ensures bitMap == SetOne(old(bitMap), index) && Get(bitMap, index) == 1
      ensures forall j: bv6 :: j != index ==> Get(bitMap, j) == Get(old(bitMap), j)
      ensures Get(old(bitMap), index) == 0 ==> Popcnt64(bitMap) == Popcnt64(old(bitMap)) + 1
    {
      if Get(bitMap, index) == 0 {
        PopcntSetOne(bitMap, index);
      }
      SetKeepsOthers(bitMap, index);
      bitMap := SetOne(bitMap, index);
    }
  }

  /** The block created by a call that grew the list, if any. */
  ghost function Created(before: seq<SlabBlock>, after: seq<SlabBlock>): Policy.Option<SlabBlock>
  {
    if |after| > |before| && |after| > 0 then Policy.Some(after[0]) else Policy.None
  }

  /** The free masks of the listed blocks, as the Policy state holds them. */
  ghost function Masks(l: seq<SlabBlock>): (m: map<SlabBlock, bv64>)
    reads l
  {
    map b | b in l :: b.bitMap
  }

  /** The masks of blocks that have not changed since the method began are the old ones. */
  twostate lemma MasksUnchanged(l: seq<SlabBlock>)
    requires forall b :: b in l ==> unchanged(b)
    ensures Masks(l) == old(Masks(l))
  {
  }
  /** The masks of blocks drawn from `l` are those `l` gives them. */
  lemma MasksSub(l: seq<SlabBlock>, l': seq<SlabBlock>)
    requires forall b :: b in l' ==> b in l
    ensures Masks(l') == Restrict(Masks(l), l')
  {
  }

  /** Two lists of the same blocks have the same masks. */
  lemma MasksSameBlocks(l: seq<SlabBlock>, l': seq<SlabBlock>)
    requires forall b :: b in l ==> b in l'
    requires forall b :: b in l' ==> b in l
    ensures Masks(l) == Masks(l')
  {
  }

  lemma MasksPush(nb: SlabBlock, l: seq<SlabBlock>)
    ensures Masks([nb] + l) == Masks(l)[nb := nb.bitMap]
  {
  }

  /** Every block of `l` belongs to allocator `a` and carries the headers for unit meta size `meta`. */
  ghost predicate Owned(l: seq<SlabBlock>, a: SlabAllocator, meta: nat)
  {
    forall b :: b in l ==> b.allocator == a && b.Formatted(meta)
  }

  /** Any list of blocks drawn from an owned list is owned. */
  lemma OwnedSub(l: seq<SlabBlock>, l': seq<SlabBlock>, a: SlabAllocator, meta: nat)
    requires Owned(l, a, meta) && forall b :: b in l' ==> b in l
    ensures Owned(l', a, meta)
  {
  }

  /** Removing the block at position `k` of an owned list leaves an owned list without it. */
  lemma OwnedRemove(l: seq<SlabBlock>, k: nat, a: SlabAllocator, meta: nat)
    requires k < |l| && Distinct(l) && Owned(l, a, meta)
    ensures Distinct(RemoveAt(l, k)) && Owned(RemoveAt(l, k), a, meta)
    ensures Masks(RemoveAt(l, k)) == Masks(l) - {l[k]}
  {
    RemoveAtDistinct(l, k);
    OwnedSub(l, RemoveAt(l, k), a, meta);
  }

  class SlabAllocator {
    var list: seq<SlabBlock>
    var cache: SlabBlock?
    const unitMetaSize: bv32
    ghost const requestedSize: bv32
    var total_count: int
    var reserved_count: int
    const reserved_limit: nat

    /** The abstract state the Policy functions work on. */
    ghost function View(): Policy.Slabs<SlabBlock>
      reads this, list
      requires cache != null
    {
      var c: SlabBlock := cache;
      Policy.Slabs(list, Masks(list), c, total_count, reserved_count, reserved_limit)
    }

    /** Every listed block belongs to this allocator and carries the headers `construct` wrote. */
    ghost predicate Sound()
      reads this`list
    {
      requestedSize <= UnitMaxSize && unitMetaSize == UnitMetaSize(requestedSize) &&
      Owned(list, this, unitMetaSize as nat)
    }

    /** The allocator invariant: sound blocks, and the Policy invariant of the abstract state. */
    ghost predicate Valid()
      reads this, list
    {
      cache != null && Policy.Inv(View()) && Sound()
    }

    /**
     * The constructor: sizes are rounded up to a multiple of 8, one empty
     * block is created and cached, both counters are 1 and the limit is at
     * least 1. Raw memory for the first block is assumed to be granted.
     */
    constructor (size: bv32, reservedLimit: nat)
      requires size <= UnitMaxSize
      ensures Valid() && fresh(list[0]) && View() == Policy.Init(list[0], reservedLimit)
      ensures requestedSize == size
    {
      unitMetaSize := UnitMetaSize(size);
      requestedSize := size;
      reserved_limit := if reservedLimit < 1 then 1 else reservedLimit;
      new;
      var b := new SlabBlock(this, unitMetaSize as nat);
      list := [b];
      cache := b;
      total_count := 1;
      reserved_count := 1;
      assert View() == Policy.Init(b, reservedLimit);
    }

    /**
     * `allocate`: serve from the cache unless it is full; otherwise walk the
     * list from the head to the first block that is not full, move it to the
     * head when more than TraverseThreshold full blocks were passed, and
     * cache it; when every block is full, push a new block at the head and
     * serve from it, or hand out `Null` when raw memory is refused.
     */
    method Allocate(grant: bool) returns (p: Policy.Ptr<SlabBlock>)
      requires Valid()
      modifies this, list
      ensures Valid()
      ensures |list| > |old(list)| ==> grant && fresh(list[0])
      ensures grant ==> p.Payload?
      ensures (View(), p) == Policy.Allocate(old(View()), Created(old(list), list))
    {
      if !cache.IsFull() {
        p := ServeCache();
        return;
      }
      var traverseCount := 0;
      var current := list[0];
      while current.IsFull() && traverseCount + 1 < |list|
        invariant 0 <= traverseCount < |list| && current == list[traverseCount]
        invariant forall j :: 0 <= j < traverseCount ==> list[j].bitMap == 0
        modifies {}
        decreases |list| - traverseCount
      {
        traverseCount := traverseCount + 1;
        current := list[traverseCount];
      }
      if current.IsFull() {
        // the walk reached the tail: every block is full
        p := ServeNewBlock(grant);
      } else {
        p := ServeListed(traverseCount);
      }
    }

    /** `allocate` when the cache has a free unit. */
    method ServeCache() returns (p: Policy.Ptr<SlabBlock>)
      requires Valid() && cache.bitMap != 0
      modifies this, cache
      ensures Valid() && list == old(list) && p.Payload?
      ensures (View(), p) == Policy.Allocate(old(View()), Policy.None)
    {
      ghost var s := View();
      p := ServeFrom(cache);
      Policy.AllocateFromCache(s, Policy.None);
      Policy.AllocateKeepsInv(s, Policy.None);
    }

    /** `allocate` when every block is full: a new block at the head, or `Null`. */
    method ServeNewBlock(grant: bool) returns (p: Policy.Ptr<SlabBlock>)
      requires Valid() && forall j :: 0 <= j < |list| ==> list[j].bitMap == 0
      modifies this
      ensures Valid()
      ensures |list| > |old(list)| ==> grant && fresh(list[0])
      ensures p.Payload? <==> grant
      ensures (View(), p) == Policy.Allocate(old(View()), Created(old(list), list))
    {
      ghost var s := View();
      var nb := SlabBlock.Create(this, unitMetaSize as nat, grant);
      MasksUnchanged(list);
      assert View() == s;
      if nb == null {
        p := Policy.Null;
        Policy.AllocateWhenAllFull(s, Policy.None);
        return;
      }
      var b: SlabBlock := nb;
      assert b !in list && b !in s.mask;
      Policy.AllocateWhenAllFull(s, Policy.Some(b));
      Policy.AllocateKeepsInv(s, Policy.Some(b));
      PushBlock(b);
      p := TakeUnit(b);
      assert Created(old(list), list) == Policy.Some(b);
    }

    /**
     * `allocate` when the walk stopped at position `k`, the first block that
     * is not full: it moves to the head past TraverseThreshold, is cached and serves.
     */
    method ServeListed(k: nat) returns (p: Policy.Ptr<SlabBlock>)
      requires Valid() && cache.bitMap == 0
      requires k < |list| && list[k].bitMap != 0 && forall j :: 0 <= j < k ==> list[j].bitMap == 0
      modifies this, list
      ensures Valid() && |list| == |old(list)| && p.Payload?
      ensures (View(), p) == Policy.Allocate(old(View()), Policy.None)
    {
      ghost var s := View();
      var current := list[k];
      if k > Policy.TraverseThreshold {
        FloatToHead(k);
      }
      cache := current;
      assert View() == Policy.Moved(s, k);
      p := ServeFrom(current);
      Policy.ServeFoundMoved(s, k);
      Policy.AllocateFromList(s, Policy.None, k);
      Policy.AllocateKeepsInv(s, Policy.None);
    }

    /** `allocateUnit` on a listed block followed by `->payload`: the Policy step Take. */
    method TakeUnit(b: SlabBlock) returns (p: Policy.Ptr<SlabBlock>)
      requires cache != null && b in list && b.bitMap != 0
      modifies b
      ensures list == old(list)
      ensures (View(), p) == Policy.Take(old(View()), b)
    {
      ghost var m := View().mask;
      var i := b.AllocateUnit();
      p := Policy.Payload(b, i as bv32);
      assert Masks(list) == m[b := SetZero(m[b], i)];
    }

    /** Unlink the block at position `k` and relink it at the head. */
    method FloatToHead(k: nat)
      requires cache != null && Sound() && k < |list|
      modifies this
      ensures cache != null && Sound() && list == MoveToFront(old(list), k)
      ensures View() == old(View()).(list := list)
    {
      MoveToFrontSame(list, k);
      MasksSameBlocks(list, MoveToFront(list, k));
      list := MoveToFront(list, k);
    }

    /** Serving from listed block `b`: it stops being empty if it was, and its lowest free unit goes out. */
    method ServeFrom(b: SlabBlock) returns (p: Policy.Ptr<SlabBlock>)
      requires cache != null && b in list && b.bitMap != 0
      modifies this, b
      ensures cache == old(cache) && list == old(list)
      ensures (View(), p) == Policy.Take(old(View()).(reserved := Policy.Unreserve(old(View()), b)), b)
    {
      ghost var v := View();
      if b.IsEmpty() {
        reserved_count := reserved_count - 1;
      }
      assert View() == v.(reserved := Policy.Unreserve(v, b));
      p := TakeUnit(b);
    }

    /** Link a new empty block in at the head and cache it. */
    method PushBlock(nb: SlabBlock)
      requires cache != null && Sound() && nb !in list
      requires nb.allocator == this && nb.Formatted(unitMetaSize as nat) && nb.bitMap == ALL
      modifies this
      ensures cache != null && Sound() && View() == Policy.Push(old(View()), nb)
      ensures list == [nb] + old(list)
    {
      MasksPush(nb, list);
      list := [nb] + list;
      cache := nb;
      total_count := total_count + 1;
    }

    /**
     * `deallocate`: a null pointer, an index of 64 or more, a block of
     * another allocator and a unit already free are reported and ignored;
     * otherwise the unit is freed. A pointer into a block of this allocator
     * must name a block that is still listed (not one already destroyed).
     */
    method Deallocate(p: Policy.Ptr<SlabBlock>)
      requires Valid()
      requires p.Payload? && p.block.allocator == this ==> p.block in list
      modifies this, list
      ensures Valid()
      ensures View() == Policy.Deallocate(old(View()), p)
    {
      if p.Null? {
        return;
      }
      if p.index >= 64 {
        return;
      }
      var slab := p.block;
      if slab.allocator != this {
        return;
      }
      var index := p.index as bv6;
      if !slab.IsUnitAllocated(index) {
        return;
      }
      assert p == Policy.Payload(slab, index as bv32);
      ReturnUnit(slab, index);
    }

    /**
     * Freeing allocated unit `index` of listed block `b`; a block that
     * becomes empty is counted, and destroyed when the count then exceeds
     * the limit.
     */
    method ReturnUnit(b: SlabBlock, index: bv6)
      requires Valid() && b in list && Get(b.bitMap, index) == 0
      modifies this, b
      ensures Valid()
      ensures View() == Policy.Deallocate(old(View()), Policy.Payload(b, index as bv32))
    {
      ghost var s := View();
      Policy.DeallocateKeepsInv(s, Policy.Payload(b, index as bv32));
      FreeSlot(b, index);
      if b.IsEmpty() {
        RetireEmpty(b, index, s);
      } else {
        Policy.DeallocatePartial(s, b, index);
      }
    }

    /**
     * Block `b` has just become empty by the return of unit `index`: count
     * it, and destroy it when the count then exceeds the limit.
     */
    method RetireEmpty(b: SlabBlock, ghost index: bv6, ghost s: Policy.Slabs<SlabBlock>)
      requires cache != null && Sound() && Policy.Inv(s) && b in s.mask
      requires Get(s.mask[b], index) == 0 && SetOne(s.mask[b], index) == ALL
      requires View() == s.(mask := s.mask[b := ALL])
      modifies this
      ensures cache != null && Sound()
      ensures View() == Policy.Deallocate(s, Policy.Payload(b, index as bv32))
    {
      CountEmpty();
      if reserved_count <= reserved_limit {
        Policy.DeallocateCounts(s, b, index);
        return;
      }
      Policy.DeallocateEvictStep(s, b, index);
      Unlink(b);
    }

    /** Cache listed block `c`. */
    method SetCache(c: SlabBlock)
      requires cache != null
      modifies this`cache
      ensures cache == c && View() == old(View()).(cache := c)
    {
      cache := c;
      MasksUnchanged(list);
    }

    /** One more block is empty: `++reserved_count`. */
    method CountEmpty()
      requires cache != null
      modifies this`reserved_count
      ensures View() == old(View()).(reserved := old(View()).reserved + 1)
    {
      reserved_count := reserved_count + 1;
      MasksUnchanged(list);
    }

    /** `deallocateUnit` on listed block `b`: only its mask changes. */
    method FreeSlot(b: SlabBlock, index: bv6)
      requires cache != null && b in list
      modifies b
      ensures b.bitMap == SetOne(old(View()).mask[b], index)
      ensures View() == old(View()).(mask := old(View()).mask[b := SetOne(old(View()).mask[b], index)])
    {
      ghost var m := View().mask;
      b.DeallocateUnit(index);
      assert Masks(list) == m[b := SetOne(m[b], index)];
    }

    /** Unlink listed block `b` and destroy it; the head takes over the cache if `b` held it. */
    method Unlink(b: SlabBlock)
      requires cache != null && Sound() && Distinct(list) && b in list && |list| >= 2
      modifies this
      ensures cache != null && Sound() && View() == Policy.Evict(old(View()), b)
    {
      ghost var s := View();
      var k := IndexOf(list, b);
      var rest := RemoveAt(list, k);
      OwnedRemove(list, k, this, unitMetaSize as nat);
      var c: SlabBlock := if b == cache then rest[0] else cache;
      list, cache := rest, c;
      total_count, reserved_count := total_count - 1, reserved_count - 1;
      MasksUnchanged(rest);
      assert View() == s.(list := rest, mask := s.mask - {b}, total := s.total - 1,
                          reserved := s.reserved - 1, cache := c);
    }

    /**
     * `prepare_bulk`: refuse a count above 64; otherwise cache the first
     * block, from the head, with at least `count` free units; when there is
     * none, push a new block at the head, cache it and count it as a block
     * and as an empty one, or fail when raw memory is refused.
     */
    method PrepareBulk(count: nat, grant: bool) returns (ok: bool)
      requires Valid() && count < 256
      modifies this
      ensures Valid()
      ensures |list| > |old(list)| ==> grant && fresh(list[0])
      ensures count > 64 ==> !ok
      ensures count <= 64 && grant ==> ok
      ensures (ok, View()) == Policy.PrepareBulk(old(View()), count, Created(old(list), list))
    {
      if count > 64 {
        Policy.PrepareBulkTooMany(View(), count, Policy.None);
        return false;
      }
      ghost var m := Masks(list);
      var k := 0;
      while k < |list| && Popcnt64(list[k].bitMap) < count
        invariant 0 <= k <= |list|
        invariant Policy.FirstWithFree(list, m, count, k) == Policy.FirstWithFree(list, m, count, 0)
        modifies {}
        decreases |list| - k
      {
        k := k + 1;
      }
      if k < |list| {
        ok := CacheWithFree(k, count);
        return;
      }
      ok := PrepareNewBlock(count, grant);
    }

    /** `prepare_bulk` when listed block `k` is the first with `count` free units: cache it. */
    method CacheWithFree(k: nat, ghost count: nat) returns (ok: bool)
      requires Valid() && count <= 64 && k < |list| && Policy.FirstWithFree(list, Masks(list), count, 0) == k
      modifies this`cache
      ensures Valid() && list == old(list) && ok
      ensures (ok, View()) == Policy.PrepareBulk(old(View()), count, Policy.None)
    {
      Policy.PrepareBulkFound(View(), count, k);
      SetCache(list[k]);
      return true;
    }

    /** `prepare_bulk` when no listed block has `count` free units. */
    method PrepareNewBlock(count: nat, grant: bool) returns (ok: bool)
      requires Valid() && count <= 64
      requires Policy.FirstWithFree(list, Masks(list), count, 0) == |list|
      modifies this
      ensures Valid()
      ensures |list| > |old(list)| ==> grant && fresh(list[0])
      ensures ok <==> grant
      ensures (ok, View()) == Policy.PrepareBulk(old(View()), count, Created(old(list), list))
    {
      ghost var s := View();
      var nb := SlabBlock.Create(this, unitMetaSize as nat, grant);
      MasksUnchanged(list);
      if nb == null {
        Policy.PrepareBulkRefused(s, count);
        return false;
      }
      ok := PushPrepared(nb, count);
    }

    /**
     * `prepare_bulk` with new block `b`: link it in at the head, cache it,
     * and count it as a block and as an empty one.
     */
    method PushPrepared(b: SlabBlock, ghost count: nat) returns (ok: bool)
      requires Valid() && count <= 64 && Policy.FirstWithFree(list, Masks(list), count, 0) == |list|
      requires b !in list && b.allocator == this && b.Formatted(unitMetaSize as nat) && b.bitMap == ALL
      modifies this
      ensures Valid() && list == [b] + old(list) && ok
      ensures (ok, View()) == Policy.PrepareBulk(old(View()), count, Policy.Some(b))
    {
      ghost var s := View();
      Policy.PrepareBulkPushes(s, count, b);
      Policy.PushCounted(s, b, count);
      PushBlock(b);
      CountEmpty();
      return true;
    }

    /**
     * `reclaim`: destroy every empty block behind the head, keeping the
     * others in order, drop both counters once per block destroyed, cache
     * the head and return the number destroyed.
     */
    method Reclaim() returns (freed: nat)
      requires Valid()
      modifies this
      ensures Valid()
      ensures (freed, View()) == Policy.Reclaim(old(View()))
    {
      ghost var s := View();
      var kept;
      kept, freed := SweepEmpty();
      Relink(kept, freed, s);
    }

    /**
     * The walk of `reclaim` behind the head: every empty block is marked for
     * destruction and counted, the others are kept in order.
     */
    method SweepEmpty() returns (kept: seq<SlabBlock>, freed: nat)
      requires cache != null && Policy.Wf(View())
      ensures kept == [list[0]] + NonEmpty(list[1..], Masks(list)) && freed + |kept| == |list|
    {
      ghost var m := Masks(list);
      kept := [list[0]];
      freed := 0;
      var j := 1;
      while j < |list|
        invariant 1 <= j <= |list| && freed + |kept| == j
        invariant kept + NonEmpty(list[j..], m) == [list[0]] + NonEmpty(list[1..], m)
        decreases |list| - j
      {
        var current := list[j];
        NonEmptyWalk(list, m, j, kept, [list[0]] + NonEmpty(list[1..], m));
        assert m[current] == current.bitMap;
        if current.IsEmpty() {
          freed := freed + 1;
        } else {
          kept := kept + [current];
        }
        j := j + 1;
      }
      assert list[j..] == [];
    }

    /**
     * The end of `reclaim`: the list becomes `kept`, the head and the
     * non-empty blocks behind it, the head is cached and both counters drop
     * by the number of blocks destroyed; `s` is the state `reclaim` began in.
     */
    method Relink(kept: seq<SlabBlock>, freed: nat, ghost s: Policy.Slabs<SlabBlock>)
      requires cache != null && Sound() && Policy.Inv(s) && View() == s
      requires kept == [s.list[0]] + NonEmpty(s.list[1..], s.mask) && freed + |kept| == |s.list|
      modifies this
      ensures Valid() && (freed, View()) == Policy.Reclaim(s)
    {
      assert forall b :: b in kept ==> b in list;
      OwnedSub(list, kept, this, unitMetaSize as nat);
      MasksSub(list, kept);
      list, cache := kept, kept[0];
      total_count, reserved_count := total_count - freed, reserved_count - freed;
      MasksUnchanged(kept);
      Policy.ReclaimOf(s, kept, freed);
      Policy.ReclaimKeepsInv(s);
    }

    /** `total()`: the number of blocks. */
    function Total(): (n: int)
      reads this, list
      requires Valid()
      ensures n == |list| && n >= 1
    {
      total_count
    }

    /** `reserved()`: the number of empty blocks, never above the limit. */
    function Reserved(): (n: int)
      reads this, list
      requires Valid()
      ensures n == Policy.EmptyCount(View()) && 0 <= n <= reserved_limit
    {
      reserved_count
    }

    /** `unitSize()`: the requested size rounded up to the next multiple of 8. */
    function UnitSize(): (r: bv32)
      requires requestedSize <= UnitMaxSize && unitMetaSize == UnitMetaSize(requestedSize)
      ensures r & 7 == 0 && requestedSize <= r && r - requestedSize < 8
    {
      UnitSizeRoundTrip(requestedSize);
      Layout.UnitSize(unitMetaSize)
    }
  }
}
