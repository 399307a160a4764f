/**
 The geometry of a device (src/lib/defaults.h, src/lib/blocks.c).

 A header of `headerSize` bytes is followed by regions of SPACING bytes. Counting
 slots of `blockSize` bytes from the start of a region, slot 0 is the hint block of
 the region before (of the header, for the first region), slots 1 .. Slots-1 belong
 to the region, the middle one of them holds its backup hint, and slot `Slots` is
 its own hint block.
 */
module Layout {
  import opened Bytes

  const MINIMUM_BLOCKSIZE := 512
  const MAXIMUM_BLOCKSIZE := 8192
  const MINIMUM_HEADER_PAD := 1024

  const SPACING := 8 * 1024 * 1024
  const HALF_SPACING := 4 * 1024 * 1024
  const SMALL_SIZE_THRESHOLD := 256 * 1024 * 1024

  /** The accepted sizes that divide half a region (SupportedSizesDivide). */
  predicate SupportedBlockSize(b: nat) {
    b == 512 || b == 1024 || b == 2048 || b == 4096 || b == 8192
  }

  lemma OddTimesOdd(i: nat, c: nat)
    ensures (2 * i + 1) * (2 * c + 1) == 2 * (2 * (i * c) + i + c) + 1
  {
  }

  /** A divisor of a power of two is a power of two. */
  lemma {:induction false} DivisorOfPow2(b: nat, h: nat, n: nat) returns (m: nat)
    requires h * b == Pow2(n)
    ensures m <= n && b == Pow2(m)
    decreases n
  {
    var c, i := b / 2, h / 2;
    if n == 0 {
      UnitDivisor(b, h);
      m := 0;
    } else if b == 2 * c {
      HalfOfProduct(h, c, Pow2(n - 1));
      m := DivisorOfPow2(c, h, n - 1);
      m := m + 1;
    } else if h == 2 * i {
      HalfOfProduct(b, i, Pow2(n - 1));
      m := DivisorOfPow2(b, i, n - 1);
    } else {
      OddTimesOdd(i, c);
      assert false;
    }
  }

  lemma UnitDivisor(b: nat, h: nat)
    requires h * b == 1
    ensures b == 1
  {
  }

  lemma HalfOfProduct(a: nat, b: nat, p: nat)
    requires a * (2 * b) == 2 * p || (2 * b) * a == 2 * p
    ensures a * b == p && b * a == p
  {
  }

  /** The sizes between the bounds whose grid meets the backup hint are these five. */
  lemma SupportedSizesDivide(b: nat)
    requires MINIMUM_BLOCKSIZE <= b <= MAXIMUM_BLOCKSIZE
    ensures SupportedBlockSize(b) <==> HALF_SPACING % b == 0
  {
    if HALF_SPACING % b == 0 {
      assert (HALF_SPACING / b) * b == HALF_SPACING;
      Pow2Values();
      var m := DivisorOfPow2(b, HALF_SPACING / b, 22);
      if m < 9 { Pow2Ordered(m, 8); }
      if 13 < m { Pow2Ordered(14, m); }
    }
  }

  /** With any other size no slot is the backup's: one data slot of every region straddles it. */
  lemma BackupIsStraddled(b: nat)
    requires MINIMUM_BLOCKSIZE <= b <= MAXIMUM_BLOCKSIZE && !SupportedBlockSize(b)
    ensures forall i: nat :: i * b != HALF_SPACING
    ensures var j := HALF_SPACING / b;
            && 1 <= j && j * b < HALF_SPACING < j * b + b
            && j * b + b < SPACING - b
  {
    SupportedSizesDivide(b);
    var j := HALF_SPACING / b;
    assert j * b + HALF_SPACING % b == HALF_SPACING;
    forall i: nat
      ensures i * b != HALF_SPACING
    {
      if i < j {
        Ordered(b, i, j);
      } else if j < i {
        Ordered(b, j, i);
      }
    }
  }

  /**
   So on a device with blocks of such a size, 768 bytes for one, the block written to that
   slot and the backup of the region overwrite each other, whichever comes second.
   */
  lemma BackupOverwritesData(image: seq<byte>, start: nat, b: nat, cell: seq<byte>, hint: seq<byte>)
    requires MINIMUM_BLOCKSIZE <= b <= MAXIMUM_BLOCKSIZE && !SupportedBlockSize(b)
    requires start + SPACING <= |image| && |cell| == |hint| == b
    ensures var p, q := start + HALF_SPACING / b * b, start + HALF_SPACING;
            && p < q < p + b && q + b < start + SPACING
            && Splice(Splice(image, p, cell), q, hint)[q..p + b] == hint[..p + b - q]
            && Splice(Splice(image, q, hint), p, cell)[q..p + b] == cell[q - p..]
  {
    BackupIsStraddled(b);
    var p, q := start + HALF_SPACING / b * b, start + HALF_SPACING;
    SlicesOverlap(image, p, q, cell, hint);
  }

  lemma SlicesOverlap(image: seq<byte>, p: nat, q: nat, a: seq<byte>, b: seq<byte>)
    requires |a| == |b| && p < q < p + |a| && q + |b| <= |image|
    ensures Splice(Splice(image, p, a), q, b)[q..p + |a|] == b[..p + |a| - q]
    ensures Splice(Splice(image, q, b), p, a)[q..p + |a|] == a[q - p..]
  {
  }

  lemma {:induction false} Pow2Ordered(m: nat, n: nat)
    requires m <= n
    ensures Pow2(m) <= Pow2(n)
    decreases n
  {
    if m < n { Pow2Ordered(m, n - 1); }
  }

  lemma Pow2Values()
    ensures Pow2(8) == 256 && Pow2(9) == 512 && Pow2(10) == 1024 && Pow2(11) == 2048
    ensures Pow2(12) == 4096 && Pow2(13) == 8192 && Pow2(14) == 16384 && Pow2(22) == HALF_SPACING
  {
  }

  datatype DeviceGeometry = DeviceGeometry(blockSize: nat, headerSize: nat, deviceSize: nat, padCharacter: byte) {
    /** Hint positions lie strictly inside the device: H + k * SPACING < N. */
    function RegionCount(): nat {
      if deviceSize <= headerSize then 0 else (deviceSize - headerSize - 1) / SPACING
    }

    predicate Valid() {
      && SupportedBlockSize(blockSize)
      && MINIMUM_HEADER_PAD <= headerSize
      && deviceSize < 0x8000_0000
      && 1 <= RegionCount()
      && headerSize + RegionCount() * SPACING + blockSize < deviceSize
    }
  }

  /** Devices on which the positions below are exact and every hint block can be read and written. */
  type Geometry = g: DeviceGeometry | g.Valid() witness DeviceGeometry(512, 1024, 16 * 1024 * 1024, 0xff)

  function Regions(g: Geometry): (r: nat)
    ensures 1 <= r
    ensures g.headerSize + r * SPACING + g.blockSize < g.deviceSize <= g.headerSize + (r + 1) * SPACING
  {
    g.RegionCount()
  }

  /** Half the slots of a region. */
  function Half(g: Geometry): (h: nat)
    ensures h * g.blockSize == HALF_SPACING
    ensures 512 <= h
  {
    HalfIsLarge(g.blockSize, HALF_SPACING / g.blockSize);
    HALF_SPACING / g.blockSize
  }

  lemma Ordered(b: nat, i: nat, j: nat)
    requires i < j
    ensures i * b + b <= j * b
  {
    assert (i + 1) * b <= j * b;
  }

  lemma HalfIsLarge(blockSize: nat, h: nat)
    requires 0 < blockSize <= MAXIMUM_BLOCKSIZE
    requires h * blockSize == HALF_SPACING
    ensures 512 <= h
  {
    if h < 512 {
      Ordered(blockSize, h, 512);
    }
  }

  function Slots(g: Geometry): nat {
    2 * Half(g)
  }

  /** Data blocks a region can hold: all its slots but the backup hint and the hint. */
  function Capacity(g: Geometry): nat {
    Slots(g) - 2
  }

  /** The start of slot `j` of region `k`. */
  function SlotPos(g: Geometry, k: nat, j: nat): (pos: nat)
    requires j <= Slots(g)
    ensures g.headerSize + k * SPACING <= pos <= g.headerSize + (k + 1) * SPACING
    ensures 1 <= j ==> g.headerSize + k * SPACING + g.blockSize <= pos
    ensures j < Slots(g) ==> pos + g.blockSize <= g.headerSize + (k + 1) * SPACING
    ensures k < Regions(g) ==> pos + g.blockSize < g.deviceSize
  {
    SlotOffset(g, j);
    g.headerSize + k * SPACING + j * g.blockSize
  }

  lemma SlotOffset(g: Geometry, j: nat)
    requires j <= Slots(g)
    ensures 0 <= j * g.blockSize <= SPACING
    ensures 1 <= j ==> g.blockSize <= j * g.blockSize
    ensures j < Slots(g) ==> j * g.blockSize + g.blockSize <= SPACING
  {
  }

  /** The hint block of region `k`: block_loop_hintblocks_large_device starts at the first and steps by SPACING. */
  function HintPos(g: Geometry, k: nat): nat {
    g.headerSize + (k + 1) * SPACING
  }

  /** The first data slot of region `k`. */
  function FirstPos(g: Geometry, k: nat): nat {
    HintPos(g, k) - SPACING + g.blockSize
  }

  /** The last data slot of region `k`, right before the hint block. */
  function LastPos(g: Geometry, k: nat): nat {
    HintPos(g, k) - g.blockSize
  }

  function BackupPos(g: Geometry, k: nat): nat {
    HintPos(g, k) - HALF_SPACING
  }

  /** The region whose hint block is at `pos`. */
  function RegionOf(g: Geometry, pos: nat): int {
    (pos - g.headerSize) / SPACING - 1
  }

  lemma RegionOfHintPos(g: Geometry, k: nat)
    ensures RegionOf(g, HintPos(g, k)) == k
  {
  }

  lemma NamedSlots(g: Geometry, k: nat)
    ensures SlotPos(g, k, Slots(g)) == HintPos(g, k)
    ensures SlotPos(g, k, Half(g)) == BackupPos(g, k)
    ensures SlotPos(g, k, 1) == FirstPos(g, k)
    ensures SlotPos(g, k, Slots(g) - 1) == LastPos(g, k)
  {
  }

  lemma NextSlot(g: Geometry, k: nat, j: nat)
    requires j < Slots(g)
    ensures SlotPos(g, k, j) + g.blockSize == SlotPos(g, k, j + 1)
  {
  }

  /** Different slots do not overlap, and slot order is position order. */
  lemma SlotsApart(g: Geometry, k: nat, i: nat, l: nat, j: nat)
    requires 1 <= i <= Slots(g) && 1 <= j <= Slots(g)
    requires k < l || (k == l && i < j)
    ensures SlotPos(g, k, i) + g.blockSize <= SlotPos(g, l, j)
  {
    if k == l {
      Ordered(g.blockSize, i, j);
    }
  }

  // ----- Data slots in writing order -----

  /** The slot of the d-th data block of a region: the backup slot is stepped over. */
  function SlotOf(g: Geometry, d: nat): (j: nat)
    ensures 1 <= j && j != Half(g)
    ensures d < Capacity(g) <==> j < Slots(g)
  {
    if d + 1 < Half(g) then d + 1 else d + 2
  }

  /** How many data slots precede slot `j`. */
  function DataBefore(g: Geometry, j: nat): nat
    requires 1 <= j
  {
    if j <= Half(g) then j - 1 else j - 2
  }

  lemma SlotOfInverse(g: Geometry, d: nat, j: nat)
    ensures DataBefore(g, SlotOf(g, d)) == d
    ensures 1 <= j && j != Half(g) ==> SlotOf(g, DataBefore(g, j)) == j
  {
  }

  function DataPos(g: Geometry, k: nat, d: nat): nat
    requires d < Capacity(g)
  {
    SlotPos(g, k, SlotOf(g, d))
  }

  /**
   In bytes: where the blocks of region `k` are, and the slots its data blocks take one
   after the other, up to the backup in its middle and on behind it.
   */
  lemma Positions(g: Geometry, k: nat, d: nat)
    requires d < Capacity(g)
    ensures HintPos(g, k) == g.headerSize + (k + 1) * 8388608
    ensures BackupPos(g, k) == g.headerSize + k * 8388608 + 4194304
    ensures FirstPos(g, k) == g.headerSize + k * 8388608 + g.blockSize
    ensures LastPos(g, k) == g.headerSize + (k + 1) * 8388608 - g.blockSize
    ensures DataPos(g, k, d) == g.headerSize + k * 8388608 +
                                (if (d + 1) * g.blockSize < 4194304 then d + 1 else d + 2) * g.blockSize
    ensures (Capacity(g) + 2) * g.blockSize == 8388608
    ensures k < Regions(g) <==> g.headerSize + (k + 1) * 8388608 < g.deviceSize
  {
    if d + 1 < Half(g) {
      Ordered(g.blockSize, d + 1, Half(g));
    } else if Half(g) < d + 1 {
      Ordered(g.blockSize, Half(g), d + 1);
    }
  }

  lemma DataPosInRegion(g: Geometry, k: nat, d: nat)
    requires d < Capacity(g)
    ensures FirstPos(g, k) <= DataPos(g, k, d) <= LastPos(g, k)
  {
  }
}
