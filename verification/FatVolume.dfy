/** Reading a FAT32 object through the block cache: `cluster_next`, `object_seek` and
    `object_read` of `fileSysUtils`, specified by the byte sequence that an image and a cluster
    chain determine. */
module FatVolume {
  import opened Words
  import opened BlockCache

  // ----- geometry ----------------------------------------------------------------------------

  /** Quotient and remainder by repeated subtraction, which keeps proofs about clusters linear. */
  function Quot(a: nat, b: nat): nat
    requires b > 0
  {
    if a < b then 0 else 1 + Quot(a - b, b)
  }

  function Rem(a: nat, b: nat): (r: nat)
    requires b > 0
    ensures r < b && r <= a
  {
    if a < b then a else Rem(a - b, b)
  }

  /** The mounted partition, with 512-byte sectors.  `ClusterOf` and `Within` are the shift by the
      cluster size and the mask `clusterMask`. */
  datatype Volume = Volume(fatStart: nat, heapStart: nat, blksPerClusterShift: nat) {
    function BlksPerCluster(): (n: nat)
      ensures n >= 1
    {
      Pow2(blksPerClusterShift)
    }

    function ClusterBytes(): (n: nat)
      ensures n >= BLOCK_LEN
    {
      BLOCK_LEN * BlksPerCluster()
    }

    function ClusterOf(offset: nat): nat {
      Quot(offset, ClusterBytes())
    }

    function Within(offset: nat): (r: nat)
      ensures r < ClusterBytes() && r <= offset
    {
      Rem(offset, ClusterBytes())
    }

    /** The first block of a cluster, before reduction to 32 bits. */
    function HeapBlock(cluster: nat): int {
      heapStart + (cluster - 2) * BlksPerCluster()
    }

    /** `block_number`, in 32-bit arithmetic. */
    function BlockNumber(cluster: nat, offset: nat): (b: nat)
      ensures b < TWO32
    {
      (HeapBlock(cluster) + offset / BLOCK_LEN) % TWO32
    }

    /** The FAT block that `cluster_next` asks for: 128 four-byte entries to a block, and the shift
        to a byte offset keeps 30 bits of the cluster number. */
    function FatBlock(cluster: nat): (b: nat)
      ensures b < TWO32
    {
      (fatStart + (cluster % 0x4000_0000) / 128) % TWO32
    }
  }

  /** The FAT entry of `cluster` in its FAT block; the upper nibble is reserved. */
  function Link(data: Block, cluster: nat): nat {
    Read32le(data, 4 * (cluster % 128)) % 0x1000_0000
  }

  predicate EndOfChain(cluster: nat) {
    cluster <= 1 || cluster >= 0x0fff_fff8
  }

  /** The four bytes of a FAT entry, low byte first; whatever the upper nibble of the last one holds, the
      entry names `next`. */
  ghost predicate FatEntry(b0: byte, b1: byte, b2: byte, b3: byte, next: nat) {
    b0 as int + 0x100 * b1 as int + 0x1_0000 * b2 as int + 0x100_0000 * (b3 as int % 0x10) == next
  }

  /** The entry of `cluster` in its FAT block, which holds 128 of them. */
  ghost predicate LinkedTo(data: Block, cluster: nat, next: nat) {
    var i := 4 * (cluster % 128);
    FatEntry(data[i], data[i + 1], data[i + 2], data[i + 3], next)
  }

  lemma LinkIffLinked(data: Block, cluster: nat, next: nat)
    ensures Link(data, cluster) == next <==> LinkedTo(data, cluster, next)
  {
    var i := 4 * (cluster % 128);
    MaskedWord(data[i], data[i + 1], data[i + 2], data[i + 3]);
  }

  /** The FAT block asked for is that of the entry's byte offset, which the code keeps in 32 bits. */
  lemma FatBlockOfOffset(v: Volume, cluster: nat)
    ensures v.FatBlock(cluster) == (v.fatStart + 4 * cluster % TWO32 / BLOCK_LEN) % TWO32
  {
    assert 4 * cluster % TWO32 == 4 * (cluster % 0x4000_0000);
  }

  lemma MaskedWord(b0: byte, b1: byte, b2: byte, b3: byte)
    ensures (b0 as int + 0x100 * b1 as int + 0x1_0000 * b2 as int + 0x100_0000 * b3 as int) % 0x1000_0000 ==
            b0 as int + 0x100 * b1 as int + 0x1_0000 * b2 as int + 0x100_0000 * (b3 as int % 0x10)
  {
    var low, n := b0 as int + 0x100 * b1 as int + 0x1_0000 * b2 as int, b3 as int;
    assert n == 0x10 * (n / 0x10) + n % 0x10;
    assert low + 0x100_0000 * n == 0x1000_0000 * (n / 0x10) + (low + 0x100_0000 * (n % 0x10));
  }

  /** A chain ends at an entry of 0 or 1, or at the marks 0xffffff8 to 0xfffffff. */
  lemma EndsChainIff(b0: byte, b1: byte, b2: byte, b3: byte, next: nat)
    requires FatEntry(b0, b1, b2, b3, next)
    ensures EndOfChain(next) <==>
            || (b0 >= 0xf8 && b1 == 0xff && b2 == 0xff && b3 as int % 0x10 == 0xf)
            || (b0 <= 1 && b1 == 0 && b2 == 0 && b3 as int % 0x10 == 0)
  {
  }

  // ----- the code on values ------------------------------------------------------------------

  datatype Walked = Walked(cache: Cache, next: Option<nat>)

  /** `cluster_next`. */
  function ClusterNext(v: Volume, card: Card, c: Cache, cluster: nat): (r: Walked)
    requires c.Valid()
    ensures r.cache.Valid()
  {
    var e := Ensure(c, card, v.FatBlock(cluster));
    if e.idx.None? then Walked(e.cache, None)
    else Walked(e.cache, Some(Link(e.cache.entries[e.idx.value].data, cluster)))
  }

  /** The position part of `objState`. */
  datatype Pos = Pos(offset: nat, length: nat, currCluster: nat, firstCluster: nat)

  /** The bytes that one trip of the read loop can deliver. */
  function Chunk(p: Pos, len: nat): (n: nat)
    requires p.offset < p.length && len > 0
    ensures 0 < n <= len && p.offset + n <= p.length && p.offset % BLOCK_LEN + n <= BLOCK_LEN
  {
    Min(len, Min(BLOCK_LEN - p.offset % BLOCK_LEN, p.length - p.offset))
  }

  /** Does this trip leave the current cluster with object data still to come? */
  predicate Crosses(v: Volume, p: Pos, len: nat)
    requires p.offset < p.length && len > 0
  {
    v.Within(p.offset + Chunk(p, len)) == 0 && p.length > p.offset + Chunk(p, len)
  }

  datatype Step = Stopped(cache: Cache) | Copied(cache: Cache, pos: Pos, bytes: seq<byte>)

  /** One trip of the loop in `object_read`.  The copy comes after `cluster_next` and goes through
      the entry found before it, so it takes whatever bytes that entry holds by then. */
  function ReadStep(v: Volume, card: Card, c: Cache, p: Pos, len: nat): (r: Step)
    requires c.Valid() && p.offset < p.length && len > 0
    ensures r.cache.Valid()
    ensures r.Copied? ==> |r.bytes| == Chunk(p, len)
    ensures r.Copied? ==> r.pos.offset == p.offset + Chunk(p, len) && r.pos.length == p.length
  {
    var e := Ensure(c, card, v.BlockNumber(p.currCluster, v.Within(p.offset)));
    if e.idx.None? then Stopped(e.cache)
    else
      var from, n := p.offset % BLOCK_LEN, Chunk(p, len);
      if Crosses(v, p, len) then
        var w := ClusterNext(v, card, e.cache, p.currCluster);
        if w.next.None? then Stopped(w.cache)
        else Copied(w.cache, p.(offset := p.offset + n, currCluster := w.next.value),
                    w.cache.entries[e.idx.value].data[from..from + n])
      else Copied(e.cache, p.(offset := p.offset + n), e.cache.entries[e.idx.value].data[from..from + n])
  }

  datatype ReadResult = ReadResult(cache: Cache, pos: Pos, bytes: seq<byte>)

  /** `object_read`. */
  function Read(v: Volume, card: Card, c: Cache, p: Pos, len: nat): (r: ReadResult)
    requires c.Valid()
    ensures r.cache.Valid() && |r.bytes| <= len
    ensures r.pos.length == p.length && r.pos.offset == p.offset + |r.bytes|
    ensures p.offset <= p.length ==> r.pos.offset <= p.length
    decreases len
  {
    if len == 0 || p.offset >= p.length then ReadResult(c, p, [])
    else
      var s := ReadStep(v, card, c, p, len);
      if s.Stopped? then ReadResult(s.cache, p, [])
      else
        var r := Read(v, card, s.cache, s.pos, len - |s.bytes|);
        ReadResult(r.cache, r.pos, s.bytes + r.bytes)
  }

  datatype SeekWalk = SeekWalk(cache: Cache, cluster: Option<nat>)

  /** The forward scan of `object_seek` from the cluster that starts at `currOffset`. */
  function Scan(v: Volume, card: Card, c: Cache, cluster: nat, currOffset: nat, offset: nat): (r: SeekWalk)
    requires c.Valid() && currOffset <= offset
    ensures r.cache.Valid()
    decreases offset - currOffset
  {
    if offset - currOffset < v.ClusterBytes() then SeekWalk(c, Some(cluster))
    else
      var w := ClusterNext(v, card, c, cluster);
      if w.next.None? then SeekWalk(w.cache, None)
      else Scan(v, card, w.cache, w.next.value, currOffset + v.ClusterBytes(), offset)
  }

  datatype SeekResult = SeekResult(cache: Cache, pos: Pos, ok: bool)

  /** `object_seek`. */
  function Seek(v: Volume, card: Card, c: Cache, p: Pos, offset: nat): (r: SeekResult)
    requires c.Valid()
    ensures r.cache.Valid()
    ensures !r.ok ==> r.pos == p
    ensures r.ok ==> r.pos.offset == offset <= p.length
  {
    if offset > p.length then SeekResult(c, p, false)
    else
      var base := p.offset - v.Within(p.offset);
      var w := if offset < base then Scan(v, card, c, p.firstCluster, 0, offset)
               else Scan(v, card, c, p.currCluster, base, offset);
      if w.cluster.None? then SeekResult(w.cache, p, false)
      else SeekResult(w.cache, p.(offset := offset, currCluster := w.cluster.value), true)
  }

  // ----- the specification: a file is a byte sequence ----------------------------------------

  /** The bytes of an object that its chain holds.  A file has all `length` of them; a directory is
      opened with the largest length instead and ends at a marker within its chain. */
  datatype File = File(chain: seq<nat>, length: nat)

  /** The block holding byte `q` of the file. */
  ghost function DataBlock(v: Volume, f: File, q: nat): int
    requires v.ClusterOf(q) < |f.chain|
  {
    v.HeapBlock(f.chain[v.ClusterOf(q)]) + v.Within(q) / BLOCK_LEN
  }

  /** A cluster whose FAT entry and data blocks lie on the medium and can be delivered. */
  ghost predicate ClusterOk(v: Volume, card: Card, cluster: nat) {
    && 2 <= cluster < 0x0fff_fff8
    && 0 <= v.HeapBlock(cluster) && v.HeapBlock(cluster) + v.BlksPerCluster() <= INVALID_BLOCK
    && v.fatStart + cluster / 128 < INVALID_BLOCK
    && card(v.fatStart + cluster / 128).ok
    && (forall b: nat :: v.HeapBlock(cluster) <= b < v.HeapBlock(cluster) + v.BlksPerCluster() ==> card(b).ok)
  }

  /** The chain is linked in the FAT and long enough for the file's length. */
  ghost predicate WellFormed(v: Volume, card: Card, f: File) {
    && f.length < TWO32
    && (f.length > 0 ==> v.ClusterOf(f.length - 1) < |f.chain|)
    && (forall i :: 0 <= i < |f.chain| ==> ClusterOk(v, card, f.chain[i]))
    && (forall i :: 0 <= i < |f.chain| - 1 ==>
          LinkedTo(card(v.fatStart + f.chain[i] / 128).data, f.chain[i], f.chain[i + 1]))
  }

  ghost function ByteAt(v: Volume, card: Card, f: File, q: nat): byte
    requires WellFormed(v, card, f) && q < f.length
  {
    IndexInChain(v, f, q);
    BlockInHeap(v, card, f, q);
    card(DataBlock(v, f, q)).data[q % BLOCK_LEN]
  }

  /** The file's bytes from `lo` up to `hi`. */
  ghost function Bytes(v: Volume, card: Card, f: File, lo: nat, hi: nat): (s: seq<byte>)
    requires WellFormed(v, card, f) && lo <= hi <= f.length
    ensures |s| == hi - lo
    decreases hi - lo
  {
    if lo == hi then [] else [ByteAt(v, card, f, lo)] + Bytes(v, card, f, lo + 1, hi)
  }

  /** The current cluster holds the current offset, unless the offset is a file end that falls on
      a cluster boundary. */
  ghost predicate PosOk(v: Volume, f: File, p: Pos) {
    && p.offset <= f.length <= p.length
    && (f.chain != [] ==> p.firstCluster == f.chain[0])
    && (p.offset - v.Within(p.offset) < f.length ==>
          v.ClusterOf(p.offset) < |f.chain| && p.currCluster == f.chain[v.ClusterOf(p.offset)])
  }

  /** Reading `len` bytes from here stays within what the chain holds. */
  predicate InFile(f: File, p: Pos, len: nat) {
    p.length == f.length || p.offset + len <= f.length
  }

  lemma PosBounds(v: Volume, f: File, p: Pos)
    requires PosOk(v, f, p)
    ensures p.offset <= f.length <= p.length
  {
  }

  // ----- arithmetic of blocks and clusters ---------------------------------------------------

  /** `Quot` and `Rem` are integer division. */
  lemma {:induction false} QuotRem(a: nat, b: nat)
    requires b > 0
    ensures a == Quot(a, b) * b + Rem(a, b)
  {
    if a >= b {
      QuotRem(a - b, b);
    }
  }

  lemma {:induction false} QuotMonotonic(a: nat, a': nat, b: nat)
    requires b > 0 && a <= a'
    ensures Quot(a, b) <= Quot(a', b)
  {
    if a >= b {
      QuotMonotonic(a - b, a' - b, b);
    }
  }

  lemma IndexInChain(v: Volume, f: File, q: nat)
    requires f.length > 0 ==> v.ClusterOf(f.length - 1) < |f.chain|
    requires q < f.length
    ensures v.ClusterOf(q) < |f.chain|
  {
    QuotMonotonic(q, f.length - 1, v.ClusterBytes());
  }

  lemma {:induction false} ModOfBlocks(q: nat, n: nat)
    requires q >= BLOCK_LEN * n
    ensures (q - BLOCK_LEN * n) % BLOCK_LEN == q % BLOCK_LEN
  {
    if n > 0 {
      ModOfBlocks(q - BLOCK_LEN, n - 1);
      assert (q - BLOCK_LEN) - BLOCK_LEN * (n - 1) == q - BLOCK_LEN * n;
      assert (q - BLOCK_LEN) % BLOCK_LEN == q % BLOCK_LEN;
    }
  }

  /** Clusters are whole numbers of blocks. */
  lemma {:induction false} RemOfBlocks(q: nat, n: nat)
    requires n >= 1
    ensures Rem(q, BLOCK_LEN * n) % BLOCK_LEN == q % BLOCK_LEN
  {
    if q >= BLOCK_LEN * n {
      ModOfBlocks(q, n);
      RemOfBlocks(q - BLOCK_LEN * n, n);
    }
  }

  lemma {:induction false} RemAdvance(q: nat, d: nat, b: nat)
    requires b > 0 && Rem(q, b) + d < b
    ensures Rem(q + d, b) == Rem(q, b) + d && Quot(q + d, b) == Quot(q, b)
  {
    if q >= b {
      RemAdvance(q - b, d, b);
    }
  }

  lemma {:induction false} RemWrap(q: nat, d: nat, b: nat)
    requires b > 0 && Rem(q, b) + d == b
    ensures Rem(q + d, b) == 0 && Quot(q + d, b) == Quot(q, b) + 1
  {
    if q >= b {
      RemWrap(q - b, d, b);
    }
  }

  /** A chunk does not pass the end of its cluster. */
  lemma ChunkFits(v: Volume, off: nat, n: nat)
    requires off % BLOCK_LEN + n <= BLOCK_LEN
    ensures v.Within(off) + n <= v.ClusterBytes()
  {
    hide Quot, Rem, Volume.BlksPerCluster;
    RemOfBlocks(off, v.BlksPerCluster());
    BlockFits(v.Within(off), v.BlksPerCluster(), n);
  }

  lemma BlockFits(r: nat, blocks: nat, n: nat)
    requires r < BLOCK_LEN * blocks && r % BLOCK_LEN + n <= BLOCK_LEN
    ensures r + n <= BLOCK_LEN * blocks
  {
    assert r == BLOCK_LEN * (r / BLOCK_LEN) + r % BLOCK_LEN;
    assert r / BLOCK_LEN + 1 <= blocks;
  }

  /** A byte of the same block lies in the same cluster and the same data block. */
  lemma SameBlock(v: Volume, off: nat, d: nat)
    requires off % BLOCK_LEN + d < BLOCK_LEN
    ensures v.ClusterOf(off + d) == v.ClusterOf(off)
    ensures v.Within(off + d) == v.Within(off) + d
    ensures v.Within(off + d) / BLOCK_LEN == v.Within(off) / BLOCK_LEN
    ensures (off + d) % BLOCK_LEN == off % BLOCK_LEN + d
  {
    hide Quot, Rem, Volume.BlksPerCluster;
    ChunkFits(v, off, d + 1);
    RemAdvance(off, d, v.ClusterBytes());
    RemOfBlocks(off, v.BlksPerCluster());
    SameQuotient(v.Within(off), d);
    SameQuotient(off, d);
  }

  lemma SameQuotient(q: nat, d: nat)
    requires q % BLOCK_LEN + d < BLOCK_LEN
    ensures (q + d) / BLOCK_LEN == q / BLOCK_LEN && (q + d) % BLOCK_LEN == q % BLOCK_LEN + d
  {
  }

  /** Where a chunk ends: at a cluster boundary it is in the next cluster, otherwise in this one. */
  lemma ChunkEnd(v: Volume, off: nat, n: nat)
    requires 0 < n && off % BLOCK_LEN + n <= BLOCK_LEN
    ensures v.Within(off + n) == 0 ==> v.ClusterOf(off + n) == v.ClusterOf(off) + 1
    ensures v.Within(off + n) != 0 ==> v.ClusterOf(off + n) == v.ClusterOf(off)
    ensures v.Within(off + n) != 0 ==> v.Within(off + n) == v.Within(off) + n
  {
    hide Quot, Rem;
    ChunkFits(v, off, n);
    if v.Within(off) + n < v.ClusterBytes() {
      RemAdvance(off, n, v.ClusterBytes());
    } else {
      RemWrap(off, n, v.ClusterBytes());
    }
  }

  lemma BlockInHeap(v: Volume, card: Card, f: File, q: nat)
    requires WellFormed(v, card, f) && v.ClusterOf(q) < |f.chain|
    ensures 0 <= DataBlock(v, f, q) < INVALID_BLOCK && card(DataBlock(v, f, q)).ok
    ensures v.BlockNumber(f.chain[v.ClusterOf(q)], v.Within(q)) == DataBlock(v, f, q)
  {
    assert ClusterOk(v, card, f.chain[v.ClusterOf(q)]);
    assert v.Within(q) / BLOCK_LEN < v.BlksPerCluster();
  }

  lemma FatBlockOk(v: Volume, card: Card, cluster: nat)
    requires ClusterOk(v, card, cluster)
    ensures v.FatBlock(cluster) == v.fatStart + cluster / 128 < INVALID_BLOCK
    ensures card(v.FatBlock(cluster)).ok
  {
    assert cluster % 0x4000_0000 == cluster;
  }

  lemma ChainLink(v: Volume, card: Card, f: File, i: nat)
    requires WellFormed(v, card, f) && i + 1 < |f.chain|
    ensures Link(card(v.fatStart + f.chain[i] / 128).data, f.chain[i]) == f.chain[i + 1]
  {
    LinkIffLinked(card(v.fatStart + f.chain[i] / 128).data, f.chain[i], f.chain[i + 1]);
  }

  // ----- reading a link ----------------------------------------------------------------------

  lemma NextFollowsChain(v: Volume, card: Card, c: Cache, cluster: nat)
    requires c.Valid() && c.Agrees(card) && ClusterOk(v, card, cluster)
    ensures var w := ClusterNext(v, card, c, cluster);
            w.cache.Agrees(card) && w.next == Some(Link(card(v.fatStart + cluster / 128).data, cluster))
  {
    hide ClusterOk, Link, LinkedTo;
    FatBlockOk(v, card, cluster);
    EnsureAgrees(c, card, v.FatBlock(cluster));
  }
}
