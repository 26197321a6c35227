/**
 * Abstract memory layout of a slab block: a 32-byte block header followed by
 * 64 unit slots of `unitMetaSize` bytes each, every slot beginning with an
 * 8-byte unit header (slot index, byte offset back to the block) and then the
 * payload handed out to callers. Addresses are a block plus a byte offset
 * into that block's storage, which keeps every pointer translation checkable.
 */
module Layout {

  /** Size of a unit header: two 32-bit fields, 8-byte aligned. */
  const UnitHeaderSize: nat := 8
  /** Offset of the unit area inside a block: allocator, next, prev and bitMap, 8 bytes each with 8-byte pointers. */
  const BlockHeaderSize: nat := 32
  /** The largest unit size an allocator accepts. */
  const UnitMaxSize: bv32 := 4096
  /** Every block holds exactly this many units, one per bit of its mask. */
  const UnitsPerBlock: nat := 64

  /** A unit header as stored in front of each payload. */
  datatype SlabUnit = SlabUnit(index: bv32, offset: nat)

  /** A byte position inside the storage of block `base`. */
  datatype Addr<B> = Addr(base: B, offset: nat)

  /** Rounding a requested unit size up to a multiple of 8, in 32-bit arithmetic. */
  function Align8(n: bv32): (r: bv32)
  {
    (n + 7) & !7
  }

  /** For any accepted size, Align8 yields the least multiple of 8 not below it. */
  lemma Align8Rounds(n: bv32)
    requires n <= UnitMaxSize
    ensures Align8(n) & 7 == 0 && n <= Align8(n) && Align8(n) - n < 8
  {
  }

  /** The bytes one unit occupies: its header plus its aligned payload. */
  function UnitMetaSize(unitSize: bv32): (m: bv32)
    ensures unitSize <= UnitMaxSize ==> m & 7 == 0 && unitSize + 8 <= m < unitSize + 16
  {
    8 + Align8(unitSize)
  }

  /** `unitSize()`: the usable payload bytes of a unit of the given size. */
  function UnitSize(unitMetaSize: bv32): (r: bv32)
  {
    unitMetaSize - 8
  }

  /**
   * `unitSize()` after construction with a requested size `n`: the least
   * multiple of 8 that is at least `n`.
   */
  lemma UnitSizeRoundTrip(n: bv32)
    requires n <= UnitMaxSize
    ensures var u := UnitSize(UnitMetaSize(n)); u & 7 == 0 && n <= u && u - n < 8
  {
    assert UnitSize(UnitMetaSize(n)) == Align8(n);
    Align8Rounds(n);
  }

  /** The bytes `create` requests for one block. */
  function BlockSize(unitMetaSize: nat): (n: nat)
  {
    BlockHeaderSize + UnitsPerBlock * unitMetaSize
  }

  /** Offset of unit `i`'s header from the block base. */
  function UnitOffset(unitMetaSize: nat, i: nat): (n: nat)
  {
    BlockHeaderSize + i * unitMetaSize
  }

  /** The header `construct` writes into slot `i`. */
  function Header(unitMetaSize: nat, i: bv6): (u: SlabUnit)
    ensures u.index < 64 && u.index as bv6 == i && u.index as int == i as int
  {
    SlabUnit(i as bv32, UnitOffset(unitMetaSize, i as int))
  }

  /** The 64 headers `construct` writes into a block, slot by slot. */
  function Headers(unitMetaSize: nat): (h: seq<SlabUnit>)
  {
    seq(UnitsPerBlock, i requires 0 <= i < UnitsPerBlock => Header(unitMetaSize, i as bv6))
  }

  /** Slot `i` of a formatted block records index `i` and lies `i` unit strides past the block header. */
  lemma HeadersRecordSlots(unitMetaSize: nat, i: nat)
    requires i < UnitsPerBlock
    ensures |Headers(unitMetaSize)| == UnitsPerBlock
    ensures Headers(unitMetaSize)[i].index as nat == i
    ensures Headers(unitMetaSize)[i].offset == BlockHeaderSize + i * unitMetaSize
  {
    var j := i as bv6;
    assert j as int == i;
    assert Headers(unitMetaSize)[i] == Header(unitMetaSize, j);
  }

  /**
   * `getUnitByIndex`: the address of slot `i`'s header in block `b`. The
   * slot lies inside the block, after the block header, and the header
   * `construct` writes there records exactly its distance from the block.
   */
  function UnitAt<B>(b: B, unitMetaSize: nat, i: bv6): (a: Addr<B>)
    ensures a.base == b
    ensures BlockHeaderSize <= a.offset && a.offset + unitMetaSize <= BlockSize(unitMetaSize)
    ensures Header(unitMetaSize, i).offset == a.offset
  {
    UnitInBlock(unitMetaSize, i as nat);
    Addr(b, UnitOffset(unitMetaSize, i as int))
  }

  /**
   * `unit->payload`: the payload address behind a unit header, in the same
   * block and clear of the whole header (UnitFromPayload inverts it).
   */
  function PayloadOf<B>(unit: Addr<B>): (p: Addr<B>)
    ensures p.base == unit.base && unit.offset + UnitHeaderSize <= p.offset
  {
    Addr(unit.base, unit.offset + UnitHeaderSize)
  }

  /** `getUnitFromPayload`: step back over the unit header. */
  function UnitFromPayload<B>(p: Addr<B>): (unit: Addr<B>)
    requires p.offset >= UnitHeaderSize
    ensures PayloadOf(unit) == p
  {
    Addr(p.base, p.offset - UnitHeaderSize)
  }

  /**
   * `getBlockFromUnit`: step back by the offset recorded in the header. For
   * the header `construct` wrote into any slot of a block, this is the
   * block's base.
   */
  function BlockFromUnit<B>(unit: Addr<B>, header: SlabUnit): (block: Addr<B>)
    requires header.offset <= unit.offset
    ensures block.base == unit.base
    ensures forall m: nat, i: bv6 :: unit == UnitAt(unit.base, m, i) && header == Header(m, i) ==> block == Addr(unit.base, 0)
  {
    Addr(unit.base, unit.offset - header.offset)
  }

  /** Unit `i` lies wholly inside the block's storage, after the block header. */
  lemma UnitInBlock(unitMetaSize: nat, i: nat)
    requires i < UnitsPerBlock
    ensures BlockHeaderSize <= UnitOffset(unitMetaSize, i)
    ensures UnitOffset(unitMetaSize, i) + unitMetaSize <= BlockSize(unitMetaSize)
  {
    assert UnitOffset(unitMetaSize, i) + unitMetaSize == BlockHeaderSize + (i + 1) * unitMetaSize;
    MulMono(i + 1, UnitsPerBlock, unitMetaSize);
  }

  /** Two different slots never overlap. */
  lemma UnitsDisjoint(unitMetaSize: nat, i: nat, j: nat)
    requires i < j
    ensures UnitOffset(unitMetaSize, i) + unitMetaSize <= UnitOffset(unitMetaSize, j)
  {
    assert UnitOffset(unitMetaSize, i) + unitMetaSize == BlockHeaderSize + (i + 1) * unitMetaSize;
    MulMono(i + 1, j, unitMetaSize);
  }

  lemma MulMono(a: nat, b: nat, c: nat)
    requires a <= b
    ensures a * c <= b * c
  {
  }

  /**
   * The pointer round trip: from the payload of slot `i` of block `b`,
   * `getUnitFromPayload` finds the slot's header, the header gives back
   * index `i`, and `getBlockFromUnit` lands on the base of `b`.
   */
  lemma PayloadRoundTrip<B>(b: B, unitMetaSize: nat, i: bv6)
    ensures var unit := UnitFromPayload(PayloadOf(UnitAt(b, unitMetaSize, i)));
            var header := Header(unitMetaSize, i);
            unit == UnitAt(b, unitMetaSize, i) && header.index as bv6 == i &&
            header.offset <= unit.offset && BlockFromUnit(unit, header) == Addr(b, 0)
  {
  }
}
