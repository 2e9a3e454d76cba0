/** The stale-entry case is real, and avoiding it is not only enough but needed: a read is right
    for every content of the data blocks exactly when no trip is stale. */
module FatStale {
  import opened Words
  import opened BlockCache
  import opened FatVolume
  import opened FatRead

  /** Two media with the same FAT and the same deliverable blocks. */
  ghost predicate SameLayout(v: Volume, card: Card, card': Card) {
    forall b: nat :: card(b).ok == card'(b).ok && (b < v.heapStart ==> card(b).data == card'(b).data)
  }

  ghost predicate SameTags(c: Cache, c': Cache) {
    && c.Valid() && c'.Valid() && c.next == c'.next
    && forall i :: 0 <= i < CACHE_ENTRIES ==> c.entries[i].block == c'.entries[i].block
  }

  lemma {:induction false} SameTagsLookup(es: seq<Entry>, es': seq<Entry>, block: nat, from: nat)
    requires |es| == |es'| && from <= |es|
    requires forall i :: 0 <= i < |es| ==> es[i].block == es'[i].block
    ensures Lookup(es, block, from) == Lookup(es', block, from)
    decreases |es| - from
  {
    if from < |es| {
      SameTagsLookup(es, es', block, from + 1);
    }
  }

  lemma SameTagsEnsure(c: Cache, c': Cache, card: Card, card': Card, block: nat)
    requires SameTags(c, c') && card(block).ok == card'(block).ok
    ensures var e, e' := Ensure(c, card, block), Ensure(c', card', block);
            SameTags(e.cache, e'.cache) && e.idx == e'.idx
  {
    SameTagsLookup(c.entries, c'.entries, block, 0);
  }

  lemma SameLayoutWellFormed(v: Volume, card: Card, card': Card, f: File)
    requires SameLayout(v, card, card') && WellFormed(v, card, f) && Acyclic(v, f)
    ensures WellFormed(v, card', f)
  {
    hide Quot, Rem, LinkedTo;
    forall i | 0 <= i < |f.chain|
      ensures ClusterOk(v, card', f.chain[i])
    {
      assert ClusterOk(v, card, f.chain[i]);
    }
    forall i | 0 <= i < |f.chain| - 1
      ensures LinkedTo(card'(v.fatStart + f.chain[i] / 128).data, f.chain[i], f.chain[i + 1])
    {
      assert ClusterOk(v, card, f.chain[i]);
    }
  }

  /** A trip is stale, and where it leads, by the tags and the FAT alone. */
  lemma SameTagsStep(v: Volume, card: Card, card': Card, c: Cache, c': Cache, f: File, p: Pos, len: nat)
    requires WellFormed(v, card, f) && WellFormed(v, card', f) && SameLayout(v, card, card') && Acyclic(v, f)
    requires PosOk(v, f, p) && InFile(f, p, len) && p.offset < p.length && len > 0
    requires SameTags(c, c') && c.Agrees(card) && c'.Agrees(card')
    ensures var s, s' := ReadStep(v, card, c, p, len), ReadStep(v, card', c', p, len);
            && s.Copied? && s'.Copied? && s.pos == s'.pos && |s.bytes| == |s'.bytes|
            && SameTags(s.cache, s'.cache)
    ensures Stale(v, c, p, len) <==> Stale(v, c', p, len)
  {
    hide WellFormed, PosOk, Quot, Rem, ReadStep, Ensure, Acyclic;
    SameTagsTrip(v, card, card', c, c', p, len);
    StepCopies(v, card, c, f, p, len);
    StepCopies(v, card', c', f, p, len);
    StepCache(v, card, c, p, len);
    StepCache(v, card', c', p, len);
    SameTagsPos(v, card, card', c, c', f, p, len);
  }

  lemma SameTagsTrip(v: Volume, card: Card, card': Card, c: Cache, c': Cache, p: Pos, len: nat)
    requires SameTags(c, c') && SameLayout(v, card, card') && p.offset < p.length && len > 0
    ensures var block := v.BlockNumber(p.currCluster, v.Within(p.offset));
            var fat := v.FatBlock(p.currCluster);
            var c1, c1' := Ensure(c, card, block).cache, Ensure(c', card', block).cache;
            SameTags(c1, c1') && SameTags(Ensure(c1, card, fat).cache, Ensure(c1', card', fat).cache)
    ensures Stale(v, c, p, len) <==> Stale(v, c', p, len)
  {
    hide Quot, Rem, Ensure;
    var block, fat := v.BlockNumber(p.currCluster, v.Within(p.offset)), v.FatBlock(p.currCluster);
    SameTagsEnsure(c, c', card, card', block);
    SameTagsEnsure(Ensure(c, card, block).cache, Ensure(c', card', block).cache, card, card', fat);
    SameTagsLookup(c.entries, c'.entries, block, 0);
    SameTagsLookup(c.entries, c'.entries, fat, 0);
  }

  lemma SameTagsPos(v: Volume, card: Card, card': Card, c: Cache, c': Cache, f: File, p: Pos, len: nat)
    requires WellFormed(v, card, f) && WellFormed(v, card', f) && PosOk(v, f, p) && InFile(f, p, len)
    requires p.offset < p.length && len > 0 && SameLayout(v, card, card') && Acyclic(v, f)
    requires c.Valid() && c'.Valid() && c.Agrees(card) && c'.Agrees(card')
    ensures var s, s' := ReadStep(v, card, c, p, len), ReadStep(v, card', c', p, len);
            s.Copied? && s'.Copied? && s.pos == s'.pos
  {
    hide WellFormed, PosOk, Quot, Rem, ReadStep, Link, DataBlock, ClusterOk, Acyclic, Chunk, Crosses, SameLayout;
    CurrentCluster(v, card, f, p);
    CurrentCluster(v, card', f, p);
    StepTarget(v, card, c, f, p, len);
    StepTarget(v, card', c', f, p, len);
    if Crosses(v, p, len) {
      StepLink(v, card, c, f, p, len);
      StepLink(v, card', c', f, p, len);
      FatBelowHeap(v, f, v.ClusterOf(p.offset));
      SameFat(v, card, card', v.fatStart + p.currCluster / 128);
    }
  }

  lemma SameFat(v: Volume, card: Card, card': Card, b: nat)
    requires SameLayout(v, card, card') && b < v.heapStart
    ensures card(b).data == card'(b).data
  {
  }

  lemma {:induction false} NeverStaleByTags(v: Volume, card: Card, card': Card, c: Cache, c': Cache, f: File, p: Pos, len: nat)
    requires WellFormed(v, card, f) && WellFormed(v, card', f) && SameLayout(v, card, card') && Acyclic(v, f)
    requires PosOk(v, f, p) && InFile(f, p, len)
    requires SameTags(c, c') && c.Agrees(card) && c'.Agrees(card')
    ensures NeverStale(v, card, c, p, len) <==> NeverStale(v, card', c', p, len)
    decreases len
  {
    hide WellFormed, SameLayout, PosOk, Stale, ReadStep, Chunk, Cache.Agrees, Acyclic;
    if len > 0 && p.offset < p.length {
      SameTagsStep(v, card, card', c, c', f, p, len);
      StepExactlyWhenHarmless(v, card, c, f, p, len);
      StepExactlyWhenHarmless(v, card', c', f, p, len);
      var s, s' := ReadStep(v, card, c, p, len), ReadStep(v, card', c', p, len);
      NeverStaleByTags(v, card, card', s.cache, s'.cache, f, s.pos, len - |s.bytes|);
    }
  }

  // ----- data that shows every stale trip ----------------------------------------------------

  ghost function Flip(data: Block): (r: Block)
    ensures forall j :: 0 <= j < BLOCK_LEN ==> r[j] != data[j]
  {
    seq(BLOCK_LEN, j requires 0 <= j < BLOCK_LEN => if data[j] == 0 then 1 else 0)
  }

  /** The medium whose every data byte differs from the byte at its place in its cluster's FAT block. */
  ghost function Spoiled(v: Volume, card: Card): Card {
    (b: nat) => if b < v.heapStart then card(b)
      else Delivery(Flip(card(v.FatBlock(Quot(b - v.heapStart, v.BlksPerCluster()) + 2)).data), card(b).ok)
  }

  ghost function Refilled(c: Cache, card: Card): (r: Cache)
    requires c.Valid()
    ensures SameTags(c, r) && r.Agrees(card)
  {
    Cache(seq(CACHE_ENTRIES, i requires 0 <= i < CACHE_ENTRIES =>
            Entry(c.entries[i].block, card(c.entries[i].block).data)), c.next)
  }

  lemma {:induction false} QuotOfMultiple(k: nat, j: nat, n: nat)
    requires j < n
    ensures Quot(k * n + j, n) == k
  {
    if k > 0 {
      assert k * n + j == (k - 1) * n + j + n;
      assert (k - 1) * n >= 0;
      QuotOfMultiple(k - 1, j, n);
    }
  }

  lemma SpoiledDiffers(v: Volume, card: Card, cluster: nat, off: nat, j: nat)
    requires ClusterOk(v, card, cluster) && off < v.ClusterBytes() && j < BLOCK_LEN
    requires v.fatStart + cluster / 128 < v.heapStart
    ensures Spoiled(v, card)(v.FatBlock(cluster)).data[j] != Spoiled(v, card)(v.BlockNumber(cluster, off)).data[j]
  {
    hide Quot, Volume.BlksPerCluster, Volume.BlockNumber, ClusterOk;
    FatBlockOk(v, card, cluster);
    ClusterOfBlock(v, card, cluster, off);
    var b := v.BlockNumber(cluster, off);
    assert Spoiled(v, card)(b).data == Flip(card(v.FatBlock(Quot(b - v.heapStart, v.BlksPerCluster()) + 2)).data);
  }

  /** The data block number gives its cluster back. */
  lemma ClusterOfBlock(v: Volume, card: Card, cluster: nat, off: nat)
    requires ClusterOk(v, card, cluster) && off < v.ClusterBytes()
    ensures v.BlockNumber(cluster, off) >= v.heapStart && cluster >= 2
    ensures Quot(v.BlockNumber(cluster, off) - v.heapStart, v.BlksPerCluster()) == cluster - 2
  {
    hide Quot, Volume.BlksPerCluster;
    var n := v.BlksPerCluster();
    ClustersApart(v, cluster, cluster + 1);
    assert off / BLOCK_LEN < n;
    QuotOfMultiple(cluster - 2, off / BLOCK_LEN, n);
    assert v.BlockNumber(cluster, off) == v.heapStart + (cluster - 2) * n + off / BLOCK_LEN;
  }

  lemma SpoiledTripIsHarmful(v: Volume, card: Card, c: Cache, f: File, p: Pos, len: nat)
    requires WellFormed(v, card, f) && Acyclic(v, f) && PosOk(v, f, p) && InFile(f, p, len) && p.offset < p.length && len > 0
    requires c.Valid() && Stale(v, c, p, len)
    ensures !HarmlessTrip(v, Spoiled(v, card), c, p, len)
  {
    hide WellFormed, PosOk, Acyclic, ClusterOk, Quot, Rem, Stale, Spoiled, DataBlock;
    CurrentCluster(v, card, f, p);
    FatBelowHeap(v, f, v.ClusterOf(p.offset));
    var from, to := p.offset % BLOCK_LEN, p.offset % BLOCK_LEN + Chunk(p, len);
    SpoiledDiffers(v, card, p.currCluster, v.Within(p.offset), from);
    var card' := Spoiled(v, card);
    assert card'(v.FatBlock(p.currCluster)).data[from..to][0] !=
           card'(v.BlockNumber(p.currCluster, v.Within(p.offset))).data[from..to][0];
  }

  lemma {:induction false} SpoiledHarmlessIsNeverStale(v: Volume, card: Card, c: Cache, f: File, p: Pos, len: nat)
    requires WellFormed(v, card, f) && WellFormed(v, Spoiled(v, card), f) && Acyclic(v, f)
    requires PosOk(v, f, p) && InFile(f, p, len)
    requires c.Valid() && c.Agrees(Spoiled(v, card)) && Harmless(v, Spoiled(v, card), c, p, len)
    ensures NeverStale(v, Spoiled(v, card), c, p, len)
    decreases len
  {
    hide WellFormed, Acyclic, PosOk, Stale, ReadStep, Chunk, Spoiled, HarmlessTrip, Cache.Agrees;
    if len > 0 && p.offset < p.length {
      if Stale(v, c, p, len) {
        SpoiledTripIsHarmful(v, card, c, f, p, len);
      }
      StepExactlyWhenHarmless(v, Spoiled(v, card), c, f, p, len);
      var s := ReadStep(v, Spoiled(v, card), c, p, len);
      SpoiledHarmlessIsNeverStale(v, card, s.cache, f, s.pos, len - |s.bytes|);
    }
  }

  /** On this medium, through a cache of these tags, the read returns the file's bytes. */
  ghost predicate ReadsRight(v: Volume, card: Card, c: Cache, f: File, p: Pos, len: nat)
    requires WellFormed(v, card, f) && PosOk(v, f, p) && InFile(f, p, len) && c.Valid()
  {
    Read(v, card, c, p, len).bytes == Bytes(v, card, f, p.offset, p.offset + Min(len, p.length - p.offset))
  }

  /** For given tags, chain and position: the read is right whatever the data blocks hold, exactly
      when no trip is stale. */
  lemma RightForAllContentsIffNeverStale(v: Volume, card: Card, c: Cache, f: File, p: Pos, len: nat)
    requires WellFormed(v, card, f) && Acyclic(v, f) && PosOk(v, f, p) && InFile(f, p, len)
    requires c.Valid() && c.Agrees(card)
    ensures NeverStale(v, card, c, p, len) <==>
            forall card', c' :: SameLayout(v, card, card') && SameTags(c, c') && c'.Agrees(card') ==>
              WellFormed(v, card', f) && ReadsRight(v, card', c', f, p, len)
  {
    hide WellFormed, Acyclic, PosOk, NeverStale, Harmless, Read, Bytes, Spoiled;
    if NeverStale(v, card, c, p, len) {
      forall card', c' | SameLayout(v, card, card') && SameTags(c, c') && c'.Agrees(card')
        ensures WellFormed(v, card', f) && ReadsRight(v, card', c', f, p, len)
      {
        SameLayoutWellFormed(v, card, card', f);
        NeverStaleByTags(v, card, card', c, c', f, p, len);
        ReadReturnsFileBytes(v, card', c', f, p, len);
      }
    } else {
      var card' := Spoiled(v, card);
      SpoiledLayout(v, card);
      SameLayoutWellFormed(v, card, card', f);
      var c' := Refilled(c, card');
      if ReadsRight(v, card', c', f, p, len) {
        ReadExactlyWhenHarmless(v, card', c', f, p, len);
        SpoiledHarmlessIsNeverStale(v, card, c', f, p, len);
        NeverStaleByTags(v, card, card', c, c', f, p, len);
        assert false;
      }
    }
  }

  lemma SpoiledLayout(v: Volume, card: Card)
    ensures SameLayout(v, card, Spoiled(v, card))
  {
    hide Quot;
  }
}
