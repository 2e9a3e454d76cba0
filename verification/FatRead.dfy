/** What `object_read` returns: exactly when it is the file's bytes, and why a file read in order
    is always reproduced. */
module FatRead {
  import opened Words
  import opened BlockCache
  import opened FatVolume

  /** The stale-entry case of `object_read`: the trip crosses into the next cluster, its data block
      was found in the entry that is the next victim, and the FAT block must be fetched.  The FAT
      block then replaces the data before it is copied. */
  predicate Stale(v: Volume, c: Cache, p: Pos, len: nat)
    requires c.Valid() && p.offset < p.length && len > 0
  {
    && Crosses(v, p, len)
    && Lookup(c.entries, v.BlockNumber(p.currCluster, v.Within(p.offset)), 0) == Some(c.next)
    && Lookup(c.entries, v.FatBlock(p.currCluster), 0).None?
  }

  /** No trip of the read is stale; this depends on the cached tags and the chain only. */
  predicate NeverStale(v: Volume, card: Card, c: Cache, p: Pos, len: nat)
    requires c.Valid()
    decreases len
  {
    len > 0 && p.offset < p.length ==>
      && !Stale(v, c, p, len)
      && var s := ReadStep(v, card, c, p, len);
         s.Copied? ==> NeverStale(v, card, s.cache, s.pos, len - |s.bytes|)
  }

  predicate HarmlessTrip(v: Volume, card: Card, c: Cache, p: Pos, len: nat)
    requires c.Valid() && p.offset < p.length && len > 0
  {
    Stale(v, c, p, len) ==>
      var from, to := p.offset % BLOCK_LEN, p.offset % BLOCK_LEN + Chunk(p, len);
      card(v.FatBlock(p.currCluster)).data[from..to] ==
      card(v.BlockNumber(p.currCluster, v.Within(p.offset))).data[from..to]
  }

  /** Every stale trip of the read happens to find the data bytes in the FAT block. */
  predicate Harmless(v: Volume, card: Card, c: Cache, p: Pos, len: nat)
    requires c.Valid()
    decreases len
  {
    len > 0 && p.offset < p.length ==>
      && HarmlessTrip(v, card, c, p, len)
      && var s := ReadStep(v, card, c, p, len);
         s.Copied? ==> Harmless(v, card, s.cache, s.pos, len - |s.bytes|)
  }

  lemma {:induction false} NeverStaleIsHarmless(v: Volume, card: Card, c: Cache, p: Pos, len: nat)
    requires c.Valid() && NeverStale(v, card, c, p, len)
    ensures Harmless(v, card, c, p, len)
    decreases len
  {
    if len > 0 && p.offset < p.length {
      var s := ReadStep(v, card, c, p, len);
      if s.Copied? {
        NeverStaleIsHarmless(v, card, s.cache, s.pos, len - |s.bytes|);
      }
    }
  }

  lemma ReadEnds(v: Volume, card: Card, c: Cache, p: Pos, len: nat)
    requires c.Valid() && (len == 0 || p.offset >= p.length)
    ensures Read(v, card, c, p, len) == ReadResult(c, p, []) && Harmless(v, card, c, p, len)
  {
  }

  /** A trip that copies is followed by the rest of the read. */
  lemma ReadUnfolds(v: Volume, card: Card, c: Cache, p: Pos, len: nat, s: Step)
    requires c.Valid() && len > 0 && p.offset < p.length
    requires s == ReadStep(v, card, c, p, len) && s.Copied?
    ensures var rest := Read(v, card, s.cache, s.pos, len - |s.bytes|);
            Read(v, card, c, p, len) == ReadResult(rest.cache, rest.pos, s.bytes + rest.bytes)
    ensures Harmless(v, card, c, p, len) <==>
            HarmlessTrip(v, card, c, p, len) && Harmless(v, card, s.cache, s.pos, len - |s.bytes|)
  {
    hide ReadStep, HarmlessTrip, Chunk;
  }

  // ----- one trip ----------------------------------------------------------------------------

  lemma InChain(v: Volume, card: Card, f: File, q: nat)
    requires WellFormed(v, card, f) && q < f.length
    ensures v.ClusterOf(q) < |f.chain|
  {
    IndexInChain(v, f, q);
  }

  /** A position before the file end is in the chain. */
  lemma CurrentCluster(v: Volume, card: Card, f: File, p: Pos)
    requires WellFormed(v, card, f) && PosOk(v, f, p) && p.offset < f.length
    ensures v.ClusterOf(p.offset) < |f.chain| && p.currCluster == f.chain[v.ClusterOf(p.offset)]
    ensures ClusterOk(v, card, p.currCluster)
    ensures v.BlockNumber(p.currCluster, v.Within(p.offset)) == DataBlock(v, f, p.offset)
    ensures 0 <= DataBlock(v, f, p.offset) < INVALID_BLOCK && card(DataBlock(v, f, p.offset)).ok
  {
    BlockInHeap(v, card, f, p.offset);
  }

  /** A trip succeeds, keeps the cache in agreement, and copies its chunk of the data block, or of
      the FAT block when it is stale. */
  lemma StepCopies(v: Volume, card: Card, c: Cache, f: File, p: Pos, len: nat)
    requires WellFormed(v, card, f) && PosOk(v, f, p) && InFile(f, p, len) && p.offset < p.length && len > 0
    requires c.Valid() && c.Agrees(card)
    ensures var s := ReadStep(v, card, c, p, len);
            var from := p.offset % BLOCK_LEN;
            var source := if Stale(v, c, p, len) then v.FatBlock(p.currCluster)
                          else v.BlockNumber(p.currCluster, v.Within(p.offset));
            && s.Copied? && s.cache.Agrees(card)
            && s.bytes == card(source).data[from..from + Chunk(p, len)]
  {
    hide WellFormed, PosOk, ClusterOk, Link, Quot, Rem, DataBlock;
    CurrentCluster(v, card, f, p);
    FatBlockOk(v, card, p.currCluster);
    var block := v.BlockNumber(p.currCluster, v.Within(p.offset));
    var fat := v.FatBlock(p.currCluster);
    EnsureAgrees(c, card, block);
    EnsureAgrees(Ensure(c, card, block).cache, card, fat);
  }

  /** The cluster a trip moves to. */
  lemma StepTarget(v: Volume, card: Card, c: Cache, f: File, p: Pos, len: nat)
    requires WellFormed(v, card, f) && PosOk(v, f, p) && InFile(f, p, len) && p.offset < p.length && len > 0
    requires c.Valid() && c.Agrees(card) && v.ClusterOf(p.offset) < |f.chain|
    ensures var s := ReadStep(v, card, c, p, len);
            && s.Copied? && s.pos.firstCluster == p.firstCluster
            && (!Crosses(v, p, len) ==> s.pos.currCluster == p.currCluster)
            && (Crosses(v, p, len) && v.ClusterOf(p.offset) + 1 < |f.chain| ==>
                  s.pos.currCluster == f.chain[v.ClusterOf(p.offset) + 1])
  {
    hide WellFormed, PosOk, ClusterOk, Link, Quot, Rem, DataBlock, Chunk, Ensure, ClusterNext;
    CurrentCluster(v, card, f, p);
    var block := v.BlockNumber(p.currCluster, v.Within(p.offset));
    EnsureAgrees(c, card, block);
    if Crosses(v, p, len) {
      if v.ClusterOf(p.offset) + 1 < |f.chain| {
        ChainLink(v, card, f, v.ClusterOf(p.offset));
      }
      NextFollowsChain(v, card, Ensure(c, card, block).cache, p.currCluster);
    }
  }

  /** A crossing leads to the FAT entry of the current cluster, also where that ends the chain. */
  lemma StepLink(v: Volume, card: Card, c: Cache, f: File, p: Pos, len: nat)
    requires WellFormed(v, card, f) && PosOk(v, f, p) && InFile(f, p, len) && p.offset < p.length && len > 0
    requires c.Valid() && c.Agrees(card) && Crosses(v, p, len)
    ensures var s := ReadStep(v, card, c, p, len);
            && s.Copied? && s.pos == Pos(p.offset + Chunk(p, len), p.length,
                                         Link(card(v.fatStart + p.currCluster / 128).data, p.currCluster), p.firstCluster)
  {
    hide WellFormed, PosOk, ClusterOk, Link, Quot, Rem, DataBlock, Chunk, Ensure, ClusterNext;
    CurrentCluster(v, card, f, p);
    var block := v.BlockNumber(p.currCluster, v.Within(p.offset));
    EnsureAgrees(c, card, block);
    NextFollowsChain(v, card, Ensure(c, card, block).cache, p.currCluster);
  }

  /** A trip leaves a consistent position. */
  lemma StepMoves(v: Volume, card: Card, c: Cache, f: File, p: Pos, len: nat)
    requires WellFormed(v, card, f) && PosOk(v, f, p) && InFile(f, p, len) && p.offset < p.length && len > 0
    requires c.Valid() && c.Agrees(card)
    ensures var s := ReadStep(v, card, c, p, len);
            s.Copied? && PosOk(v, f, s.pos)
  {
    hide WellFormed, ClusterOk, Quot, Rem, DataBlock, ReadStep;
    CurrentCluster(v, card, f, p);
    var q := p.offset + Chunk(p, len);
    ChunkEnd(v, p.offset, Chunk(p, len));
    if Crosses(v, p, len) && q < f.length {
      InChain(v, card, f, q);
    }
    StepTarget(v, card, c, f, p, len);
  }

  /** A chunk of the current data block is the next stretch of the file. */
  lemma ChunkIsFileBytes(v: Volume, card: Card, f: File, off: nat, n: nat)
    requires WellFormed(v, card, f) && off + n <= f.length && off < f.length && off % BLOCK_LEN + n <= BLOCK_LEN
    requires v.ClusterOf(off) < |f.chain| && 0 <= DataBlock(v, f, off)
    ensures card(DataBlock(v, f, off)).data[off % BLOCK_LEN..off % BLOCK_LEN + n] == Bytes(v, card, f, off, off + n)
  {
    hide WellFormed, ClusterOk, Quot, Rem, Bytes;
    var copied := card(DataBlock(v, f, off)).data[off % BLOCK_LEN..off % BLOCK_LEN + n];
    var wanted := Bytes(v, card, f, off, off + n);
    forall i | 0 <= i < n
      ensures copied[i] == wanted[i]
    {
      SameBlock(v, off, i);
      BytesAt(v, card, f, off, off + n, i);
    }
  }

  lemma {:induction false} BytesAt(v: Volume, card: Card, f: File, lo: nat, hi: nat, i: nat)
    requires WellFormed(v, card, f) && lo <= hi <= f.length && i < hi - lo
    ensures Bytes(v, card, f, lo, hi)[i] == ByteAt(v, card, f, lo + i)
    decreases i
  {
    hide WellFormed, ByteAt;
    if i > 0 {
      BytesAt(v, card, f, lo + 1, hi, i - 1);
    }
  }

  lemma {:induction false} BytesJoin(v: Volume, card: Card, f: File, lo: nat, mid: nat, hi: nat)
    requires WellFormed(v, card, f) && lo <= mid <= hi <= f.length
    ensures Bytes(v, card, f, lo, mid) + Bytes(v, card, f, mid, hi) == Bytes(v, card, f, lo, hi)
    decreases mid - lo
  {
    hide WellFormed, ByteAt;
    if lo < mid {
      BytesJoin(v, card, f, lo + 1, mid, hi);
    }
  }

  /** One trip: it succeeds and moves to a consistent position, and its bytes are the file's
      exactly when it is not stale or the FAT block holds the same bytes. */
  lemma StepExactlyWhenHarmless(v: Volume, card: Card, c: Cache, f: File, p: Pos, len: nat)
    requires WellFormed(v, card, f) && PosOk(v, f, p) && InFile(f, p, len) && p.offset < p.length && len > 0
    requires c.Valid() && c.Agrees(card)
    ensures var s, n := ReadStep(v, card, c, p, len), Chunk(p, len);
            && s.Copied? && s.cache.Agrees(card) && PosOk(v, f, s.pos)
            && (s.bytes == Bytes(v, card, f, p.offset, p.offset + n) <==> HarmlessTrip(v, card, c, p, len))
  {
    hide WellFormed, PosOk, ClusterOk, Quot, Rem, ReadStep, Stale, Bytes;
    PosBounds(v, f, p);
    StepCopies(v, card, c, f, p, len);
    StepMoves(v, card, c, f, p, len);
    CurrentCluster(v, card, f, p);
    ChunkIsFileBytes(v, card, f, p.offset, Chunk(p, len));
  }

  // ----- a whole read ------------------------------------------------------------------------

  /** `object_read` returns min(len, length - offset) bytes, advances by that count to a consistent
      position, and keeps the cache in agreement with the medium.  The bytes are the file's exactly
      when no stale trip finds different bytes in its FAT block. */
  lemma {:induction false} ReadExactlyWhenHarmless(v: Volume, card: Card, c: Cache, f: File, p: Pos, len: nat)
    requires WellFormed(v, card, f) && PosOk(v, f, p) && InFile(f, p, len)
    requires c.Valid() && c.Agrees(card)
    ensures var r := Read(v, card, c, p, len);
            var n := Min(len, p.length - p.offset);
            && |r.bytes| == n && r.pos.offset == p.offset + n
            && PosOk(v, f, r.pos) && r.cache.Agrees(card)
            && (r.bytes == Bytes(v, card, f, p.offset, p.offset + n) <==> Harmless(v, card, c, p, len))
    decreases len
  {
    hide Read, Harmless, ReadStep, HarmlessTrip, WellFormed, PosOk, Bytes, Chunk;
    PosBounds(v, f, p);
    var n := Min(len, p.length - p.offset);
    if len == 0 || p.offset >= p.length {
      ReadEnds(v, card, c, p, len);
    } else {
      StepExactlyWhenHarmless(v, card, c, f, p, len);
      var s, k := ReadStep(v, card, c, p, len), Chunk(p, len);
      ReadExactlyWhenHarmless(v, card, s.cache, f, s.pos, len - k);
      ReadUnfolds(v, card, c, p, len, s);
      var rest := Read(v, card, s.cache, s.pos, len - k);
      assert |rest.bytes| == n - k && s.pos.offset + |rest.bytes| == p.offset + n;
      BytesJoin(v, card, f, p.offset, p.offset + k, p.offset + n);
      PrefixSplit(s.bytes, rest.bytes, Bytes(v, card, f, p.offset, p.offset + k),
                  Bytes(v, card, f, p.offset + k, p.offset + n));
    }
  }

  lemma PrefixSplit(a: seq<byte>, b: seq<byte>, a': seq<byte>, b': seq<byte>)
    requires |a| == |a'|
    ensures a + b == a' + b' <==> a == a' && b == b'
  {
    if a + b == a' + b' {
      assert a == (a + b)[..|a|] && a' == (a' + b')[..|a|];
      assert b == (a + b)[|a|..] && b' == (a' + b')[|a|..];
    }
  }

  /** With the proviso as a condition on the cached tags, the next file bytes are returned. */
  lemma ReadReturnsFileBytes(v: Volume, card: Card, c: Cache, f: File, p: Pos, len: nat)
    requires WellFormed(v, card, f) && PosOk(v, f, p) && InFile(f, p, len)
    requires c.Valid() && c.Agrees(card) && NeverStale(v, card, c, p, len)
    ensures Read(v, card, c, p, len).bytes ==
            Bytes(v, card, f, p.offset, p.offset + Min(len, p.length - p.offset))
  {
    NeverStaleIsHarmless(v, card, c, p, len);
    ReadExactlyWhenHarmless(v, card, c, f, p, len);
  }

  // ----- reading in order --------------------------------------------------------------------

  /** Distinct clusters, and a FAT that ends before the cluster heap. */
  ghost predicate Acyclic(v: Volume, f: File) {
    && (forall i, j :: 0 <= i < j < |f.chain| ==> f.chain[i] != f.chain[j])
    && (forall i :: 0 <= i < |f.chain| ==> v.fatStart + f.chain[i] / 128 < v.heapStart)
  }

  lemma FatBelowHeap(v: Volume, f: File, i: nat)
    requires Acyclic(v, f) && i < |f.chain|
    ensures v.fatStart + f.chain[i] / 128 < v.heapStart
  {
  }

  lemma ClustersApart(v: Volume, c1: nat, c2: nat)
    requires 2 <= c1 < c2
    ensures v.heapStart <= v.HeapBlock(c1) && v.HeapBlock(c1) + v.BlksPerCluster() <= v.HeapBlock(c2)
  {
    hide Volume.BlksPerCluster;
    MultiplesApart(c1 - 2, c2 - 2, v.BlksPerCluster());
  }

  lemma MultiplesApart(a: nat, b: nat, n: nat)
    requires a < b
    ensures 0 <= a * n && a * n + n <= b * n
  {
    assert b * n == a * n + n + (b - a - 1) * n;
  }

  lemma DataBlockRange(v: Volume, card: Card, f: File, x: nat)
    requires WellFormed(v, card, f) && v.ClusterOf(x) < |f.chain|
    ensures var cluster := f.chain[v.ClusterOf(x)];
            && cluster >= 2
            && v.heapStart <= v.HeapBlock(cluster) <= DataBlock(v, f, x) < v.HeapBlock(cluster) + v.BlksPerCluster()
  {
    var cluster := f.chain[v.ClusterOf(x)];
    assert ClusterOk(v, card, cluster);
    ClustersApart(v, cluster, cluster + 1);
    assert v.Within(x) / BLOCK_LEN < v.BlksPerCluster();
  }

  /** Offsets of different blocks of the file never share a data block, nor does one lie in the FAT. */
  lemma DataBlocksApart(v: Volume, card: Card, f: File, x: nat, y: nat)
    requires WellFormed(v, card, f) && Acyclic(v, f) && x < f.length && y < f.length
    requires v.ClusterOf(x) < |f.chain| && v.ClusterOf(y) < |f.chain|
    ensures DataBlock(v, f, x) == DataBlock(v, f, y) ==> x / BLOCK_LEN == y / BLOCK_LEN
    ensures DataBlock(v, f, x) >= v.heapStart
  {
    var cx, cy := f.chain[v.ClusterOf(x)], f.chain[v.ClusterOf(y)];
    DataBlockRange(v, card, f, x);
    DataBlockRange(v, card, f, y);
    if cx < cy {
      ClustersApart(v, cx, cy);
    } else if cy < cx {
      ClustersApart(v, cy, cx);
    } else {
      SameClusterBlocks(v, x, y);
    }
  }

  lemma SameClusterBlocks(v: Volume, x: nat, y: nat)
    requires v.ClusterOf(x) == v.ClusterOf(y)
    ensures v.Within(x) / BLOCK_LEN == v.Within(y) / BLOCK_LEN ==> x / BLOCK_LEN == y / BLOCK_LEN
  {
    QuotRem(x, v.ClusterBytes());
    QuotRem(y, v.ClusterBytes());
    RemOfBlocks(x, v.BlksPerCluster());
    RemOfBlocks(y, v.BlksPerCluster());
    assert x - y == v.Within(x) - v.Within(y);
  }

  /** Nothing of the file from `q` on is cached, except the block of `q` itself as the newest entry. */
  ghost predicate Ahead(v: Volume, c: Cache, f: File, q: nat)
    requires c.Valid()
  {
    forall i, x :: 0 <= i < CACHE_ENTRIES && q <= x < f.length && IsDataBlock(v, f, x, c.entries[i].block) ==>
      x / BLOCK_LEN == q / BLOCK_LEN && i == (c.next + CACHE_ENTRIES - 1) % CACHE_ENTRIES
  }

  /** Nothing of the file from `q` on is cached. */
  ghost predicate Uncached(v: Volume, c: Cache, f: File, q: nat)
    requires c.Valid()
  {
    forall i, x :: 0 <= i < CACHE_ENTRIES && q <= x < f.length ==> !IsDataBlock(v, f, x, c.entries[i].block)
  }

  ghost predicate IsDataBlock(v: Volume, f: File, x: nat, block: nat) {
    v.ClusterOf(x) < |f.chain| && block == DataBlock(v, f, x)
  }

  /** The entry in use is then never the next victim. */
  lemma AheadIsNotStale(v: Volume, card: Card, c: Cache, f: File, p: Pos, len: nat)
    requires WellFormed(v, card, f) && PosOk(v, f, p) && InFile(f, p, len) && p.offset < p.length && len > 0
    requires c.Valid() && Ahead(v, c, f, p.offset)
    ensures !Stale(v, c, p, len)
  {
    CurrentCluster(v, card, f, p);
    var hit := Lookup(c.entries, DataBlock(v, f, p.offset), 0);
    if hit.Some? {
      assert IsDataBlock(v, f, p.offset, c.entries[hit.value].block);
    }
  }

  lemma AheadAfterData(v: Volume, card: Card, c: Cache, f: File, q: nat)
    requires WellFormed(v, card, f) && Acyclic(v, f) && q < f.length
    requires c.Valid() && Ahead(v, c, f, q)
    requires v.ClusterOf(q) < |f.chain| && 0 <= DataBlock(v, f, q) && card(DataBlock(v, f, q)).ok
    ensures Ahead(v, Ensure(c, card, DataBlock(v, f, q)).cache, f, q)
  {
    hide WellFormed, Acyclic, Quot, Rem, DataBlock;
    var c' := Ensure(c, card, DataBlock(v, f, q)).cache;
    forall i, x | 0 <= i < CACHE_ENTRIES && q <= x < f.length && IsDataBlock(v, f, x, c'.entries[i].block)
      ensures x / BLOCK_LEN == q / BLOCK_LEN && i == (c'.next + CACHE_ENTRIES - 1) % CACHE_ENTRIES
    {
      if c' != c {
        if i != c.next {
          assert IsDataBlock(v, f, x, c.entries[i].block);
          SameDataBlock(v, f, x, q);
          assert false;
        } else {
          DataBlocksApart(v, card, f, x, q);
        }
      } else {
        assert IsDataBlock(v, f, x, c.entries[i].block);
      }
    }
  }

  lemma SameDataBlock(v: Volume, f: File, x: nat, q: nat)
    requires x / BLOCK_LEN == q / BLOCK_LEN && v.ClusterOf(x) < |f.chain| && v.ClusterOf(q) < |f.chain|
    ensures DataBlock(v, f, x) == DataBlock(v, f, q)
  {
    if q <= x {
      SameBlock(v, q, x - q);
    } else {
      SameBlock(v, x, q - x);
    }
  }

  lemma AheadNextBlock(v: Volume, c: Cache, f: File, q: nat, q': nat)
    requires c.Valid()
    requires Ahead(v, c, f, q) && q <= q'
    ensures Ahead(v, c, f, q')
    ensures q' / BLOCK_LEN > q / BLOCK_LEN ==> Uncached(v, c, f, q')
  {
    hide IsDataBlock;
  }

  /** A FAT fetch brings in no data block. */
  lemma AheadAfterFat(v: Volume, card: Card, c: Cache, f: File, q: nat, fat: nat)
    requires WellFormed(v, card, f) && Acyclic(v, f) && c.Valid()
    requires Uncached(v, c, f, q) && fat < v.heapStart
    ensures Ahead(v, Ensure(c, card, fat).cache, f, q)
  {
    var c' := Ensure(c, card, fat).cache;
    forall i, x | 0 <= i < CACHE_ENTRIES && q <= x < f.length
      ensures !IsDataBlock(v, f, x, c'.entries[i].block)
    {
      InChain(v, card, f, x);
      DataBlocksApart(v, card, f, x, x);
      assert !IsDataBlock(v, f, x, c.entries[i].block);
    }
  }

  /** The cache after a trip. */
  lemma StepCache(v: Volume, card: Card, c: Cache, p: Pos, len: nat)
    requires c.Valid() && p.offset < p.length && len > 0 && ReadStep(v, card, c, p, len).Copied?
    ensures var c1 := Ensure(c, card, v.BlockNumber(p.currCluster, v.Within(p.offset))).cache;
            ReadStep(v, card, c, p, len).cache ==
            if Crosses(v, p, len) then Ensure(c1, card, v.FatBlock(p.currCluster)).cache else c1
  {
    hide Ensure, Link, Quot, Rem, Chunk;
  }

  lemma CrossingStartsBlock(v: Volume, p: Pos, len: nat)
    requires p.offset < p.length && len > 0 && Crosses(v, p, len)
    ensures (p.offset + Chunk(p, len)) / BLOCK_LEN > p.offset / BLOCK_LEN
  {
    hide Quot, Rem, Chunk;
    RemOfBlocks(p.offset + Chunk(p, len), v.BlksPerCluster());
  }

  lemma AheadAfterStep(v: Volume, card: Card, c: Cache, f: File, p: Pos, len: nat)
    requires WellFormed(v, card, f) && Acyclic(v, f) && PosOk(v, f, p) && InFile(f, p, len) && p.offset < p.length && len > 0
    requires c.Valid() && c.Agrees(card) && Ahead(v, c, f, p.offset)
    ensures var s := ReadStep(v, card, c, p, len);
            s.Copied? && Ahead(v, s.cache, f, s.pos.offset)
  {
    hide WellFormed, PosOk, ClusterOk, Quot, Rem, Acyclic, Ahead, Uncached, DataBlock, Ensure, ReadStep, Chunk, Crosses;
    CurrentCluster(v, card, f, p);
    FatBelowHeap(v, f, v.ClusterOf(p.offset));
    StepCopies(v, card, c, f, p, len);
    StepCache(v, card, c, p, len);
    PosBounds(v, f, p);
    AheadAfterData(v, card, c, f, p.offset);
    var c1 := Ensure(c, card, DataBlock(v, f, p.offset)).cache;
    var q' := p.offset + Chunk(p, len);
    AheadNextBlock(v, c1, f, p.offset, q');
    if Crosses(v, p, len) {
      CrossingStartsBlock(v, p, len);
      FatBlockOk(v, card, p.currCluster);
      AheadAfterFat(v, card, c1, f, q', v.FatBlock(p.currCluster));
    }
  }

  lemma {:induction false} AheadNeverStale(v: Volume, card: Card, c: Cache, f: File, p: Pos, len: nat)
    requires WellFormed(v, card, f) && Acyclic(v, f) && PosOk(v, f, p) && InFile(f, p, len)
    requires c.Valid() && c.Agrees(card) && Ahead(v, c, f, p.offset)
    ensures NeverStale(v, card, c, p, len)
    ensures var r := Read(v, card, c, p, len);
            Ahead(v, r.cache, f, r.pos.offset)
    decreases len
  {
    hide WellFormed, Acyclic, PosOk, Ahead, Read, Harmless, ReadStep, Stale, Chunk;
    if len == 0 || p.offset >= p.length {
      ReadEnds(v, card, c, p, len);
    } else {
      AheadIsNotStale(v, card, c, f, p, len);
      AheadAfterStep(v, card, c, f, p, len);
      StepCopies(v, card, c, f, p, len);
      StepMoves(v, card, c, f, p, len);
      var s := ReadStep(v, card, c, p, len);
      AheadNeverStale(v, card, s.cache, f, s.pos, len - |s.bytes|);
      ReadUnfolds(v, card, c, p, len, s);
    }
  }

  /** Successive reads through one handle. */
  function ReadMany(v: Volume, card: Card, c: Cache, p: Pos, lens: seq<nat>): (r: ReadResult)
    requires c.Valid()
    ensures r.cache.Valid()
    decreases |lens|
  {
    if lens == [] then ReadResult(c, p, [])
    else
      var r := Read(v, card, c, p, lens[0]);
      var rest := ReadMany(v, card, r.cache, r.pos, lens[1..]);
      rest.(bytes := r.bytes + rest.bytes)
  }

  function Sum(lens: seq<nat>): nat {
    if lens == [] then 0 else lens[0] + Sum(lens[1..])
  }

  lemma {:induction false} ReadManyAhead(v: Volume, card: Card, c: Cache, f: File, p: Pos, lens: seq<nat>)
    requires WellFormed(v, card, f) && Acyclic(v, f) && PosOk(v, f, p) && p.length == f.length
    requires c.Valid() && c.Agrees(card) && Ahead(v, c, f, p.offset)
    ensures ReadMany(v, card, c, p, lens).bytes ==
            Bytes(v, card, f, p.offset, p.offset + Min(Sum(lens), p.length - p.offset))
    decreases |lens|
  {
    hide WellFormed, Acyclic, PosOk, Ahead, Read, NeverStale, Harmless, Bytes;
    PosBounds(v, f, p);
    if lens != [] {
      AheadNeverStale(v, card, c, f, p, lens[0]);
      ReadReturnsFileBytes(v, card, c, f, p, lens[0]);
      ReadExactlyWhenHarmless(v, card, c, f, p, lens[0]);
      var r := Read(v, card, c, p, lens[0]);
      ReadManyAhead(v, card, r.cache, f, r.pos, lens[1..]);
      BytesJoin(v, card, f, p.offset, r.pos.offset, p.offset + Min(Sum(lens), p.length - p.offset));
    }
  }

  /** A file read in order through a single handle, from an empty cache and in chunks of any sizes,
      is reproduced: the pieces join to the file's bytes, and to the whole file when the sizes cover
      it. */
  lemma SequentialReadReproducesFile(v: Volume, card: Card, c: Cache, f: File, p: Pos, lens: seq<nat>)
    requires WellFormed(v, card, f) && Acyclic(v, f) && PosOk(v, f, p) && p.offset == 0 && p.length == f.length
    requires Empty(c)
    ensures var bytes := ReadMany(v, card, c, p, lens).bytes;
            && bytes == Bytes(v, card, f, 0, Min(Sum(lens), f.length))
            && (Sum(lens) >= f.length ==> bytes == Bytes(v, card, f, 0, f.length))
  {
    assert Ahead(v, c, f, 0) by {
      forall i, x | 0 <= i < CACHE_ENTRIES && 0 <= x < f.length
        ensures !IsDataBlock(v, f, x, c.entries[i].block)
      {
        IndexInChain(v, f, x);
        BlockInHeap(v, card, f, x);
      }
    }
    ReadManyAhead(v, card, c, f, p, lens);
  }
}
