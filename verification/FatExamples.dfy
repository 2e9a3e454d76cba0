/** Inputs on which the file system fails: a stale read, a refused read that spoils the cache, and a
    position that `file_clusters` leaves behind. */
module FatExamples {
  import opened Words
  import opened BlockCache
  import opened FatVolume
  import opened FatRead
  import opened FatSeek

  const EXAMPLE_VOLUME := Volume(1, 66, 0)
  const EXAMPLE_FILE := File([2, 3], 1024)

  function ExampleBytes(b: nat): (r: Block)
  {
    seq(BLOCK_LEN, i => if b != 1 then b % 0x100 else if i == 8 then 3 else 0)
  }

  function ExampleCard(): Card {
    (b: nat) => Delivery(ExampleBytes(b), true)
  }

  /** Eight distinct blocks in order of access: the file's first data block, then seven others. */
  const EXAMPLE_ACCESSES: seq<nat> := [66, 21, 22, 23, 24, 25, 26, 27]

  function ExampleEntry(i: nat, k: nat): Entry
    requires i < CACHE_ENTRIES
  {
    if i < k then Entry(EXAMPLE_ACCESSES[i], ExampleBytes(EXAMPLE_ACCESSES[i])) else UnusedEntry()
  }

  /** The cache after the first `k` of those accesses. */
  function ExampleCache(k: nat): (c: Cache)
    requires k <= CACHE_ENTRIES
    ensures c.Valid() && c.next == k % CACHE_ENTRIES
  {
    Cache(seq(CACHE_ENTRIES, i requires 0 <= i < CACHE_ENTRIES => ExampleEntry(i, k)), k % CACHE_ENTRIES)
  }

  lemma ExampleStep(k: nat)
    requires k < CACHE_ENTRIES
    ensures Ensure(ExampleCache(k), ExampleCard(), EXAMPLE_ACCESSES[k]).cache == ExampleCache(k + 1)
  {
    hide ExampleBytes, Lookup, ExampleEntry;
    var c, c' := ExampleCache(k), ExampleCache(k + 1);
    forall i | 0 <= i < CACHE_ENTRIES
      ensures c.entries[i].block != EXAMPLE_ACCESSES[k]
      ensures i != k ==> c.entries[i] == c'.entries[i]
    {
      ExampleEntries(i, k);
    }
    ExampleEntries(k, k);
    assert Ensure(c, ExampleCard(), EXAMPLE_ACCESSES[k]).cache.entries == c'.entries;
  }

  lemma ExampleEntries(i: nat, k: nat)
    requires i < CACHE_ENTRIES && k < CACHE_ENTRIES
    ensures ExampleEntry(i, k).block != EXAMPLE_ACCESSES[k]
    ensures i != k ==> ExampleEntry(i, k) == ExampleEntry(i, k + 1)
    ensures i == k ==> ExampleEntry(i, k + 1) == Entry(EXAMPLE_ACCESSES[k], ExampleBytes(EXAMPLE_ACCESSES[k]))
  {
    hide ExampleBytes;
  }

  lemma {:induction false} ExampleIsReachable(k: nat)
    requires k <= CACHE_ENTRIES
    ensures EnsureRun(ExampleCache(k), ExampleCard(), EXAMPLE_ACCESSES[k..]) == ExampleCache(CACHE_ENTRIES)
    decreases CACHE_ENTRIES - k
  {
    hide ExampleCache, ExampleCard, Ensure;
    if k < CACHE_ENTRIES {
      ExampleStep(k);
      assert EXAMPLE_ACCESSES[k..][1..] == EXAMPLE_ACCESSES[k + 1..];
      ExampleIsReachable(k + 1);
    }
  }

  lemma ExampleStartsEmpty()
    ensures Empty(ExampleCache(0))
  {
  }

  lemma ExampleIsWellFormed()
    ensures WellFormed(EXAMPLE_VOLUME, ExampleCard(), EXAMPLE_FILE)
    ensures PosOk(EXAMPLE_VOLUME, EXAMPLE_FILE, Pos(1, 1024, 2, 2))
  {
    hide LinkedTo;
    var v, card := EXAMPLE_VOLUME, ExampleCard();
    assert v.BlksPerCluster() == 1;
    assert Quot(1023, 512) == 1 by { assert Quot(511, 512) == 0; }
    assert ClusterOk(v, card, 2) && ClusterOk(v, card, 3);
    ExampleLink();
  }

  lemma ExampleLink()
    ensures LinkedTo(ExampleCard()(1).data, 2, 3)
  {
    var fat := ExampleBytes(1);
    assert fat[8] == 3 && fat[9] == 0 && fat[10] == 0 && fat[11] == 0;
  }

  lemma ExampleIsStale()
    ensures Stale(EXAMPLE_VOLUME, ExampleCache(CACHE_ENTRIES), Pos(1, 1024, 2, 2), 511)
  {
    hide ExampleBytes;
    var v, c := EXAMPLE_VOLUME, ExampleCache(CACHE_ENTRIES);
    assert v.BlksPerCluster() == 1;
    assert v.Within(512) == 0 by { assert Rem(0, 512) == 0; }
    assert v.Within(1) == 1;
    assert forall i :: 0 <= i < CACHE_ENTRIES ==> c.entries[i] == ExampleEntry(i, CACHE_ENTRIES);
    assert c.entries[0].block == 66;
  }

  lemma ExampleIsHarmful()
    ensures !Harmless(EXAMPLE_VOLUME, ExampleCard(), ExampleCache(CACHE_ENTRIES), Pos(1, 1024, 2, 2), 511)
  {
    hide Stale, ReadStep, ExampleCache, Quot;
    var v, card, p := EXAMPLE_VOLUME, ExampleCard(), Pos(1, 1024, 2, 2);
    ExampleIsStale();
    assert v.BlksPerCluster() == 1;
    assert v.Within(1) == 1;
    assert v.FatBlock(2) == 1 && v.BlockNumber(2, 1) == 66;
    assert ExampleBytes(1)[1] != ExampleBytes(66)[1];
    assert card(1).data[1..512][0] != card(66).data[1..512][0];
    assert !HarmlessTrip(v, card, ExampleCache(CACHE_ENTRIES), p, 511);
  }

  /** After one byte of a file, seven blocks read for something else leave its data block as the next
      victim; the rest of the block is then returned as FAT bytes. */
  lemma StaleReadExample()
    ensures var v, card, f, p := EXAMPLE_VOLUME, ExampleCard(), EXAMPLE_FILE, Pos(1, 1024, 2, 2);
            var c := EnsureRun(ExampleCache(0), card, EXAMPLE_ACCESSES);
            && Empty(ExampleCache(0))
            && WellFormed(v, card, f) && PosOk(v, f, p)
            && Read(v, card, c, p, 511).bytes != Bytes(v, card, f, 1, 512)
  {
    hide WellFormed, PosOk, Read, Harmless, Stale, EnsureRun, Bytes;
    ExampleIsWellFormed();
    ExampleIsHarmful();
    ExampleStartsEmpty();
    ExampleIsReachable(0);
    assert EXAMPLE_ACCESSES[0..] == EXAMPLE_ACCESSES;
    ReadExactlyWhenHarmless(EXAMPLE_VOLUME, ExampleCard(), ExampleCache(CACHE_ENTRIES), EXAMPLE_FILE,
                            Pos(1, 1024, 2, 2), 511);
  }

  // ----- a refused read ----------------------------------------------------------------------

  /** The same medium, but block 99 is refused. */
  function RefusingCard(): Card {
    (b: nat) => Delivery(ExampleBytes(b), b != 99)
  }

  /** The cache after block 99 was refused: its bytes are under the tag of the file's first block. */
  function SpoiledCache(): (c: Cache)
    ensures c.Valid()
  {
    var c := ExampleCache(CACHE_ENTRIES);
    Cache(c.entries[0 := Entry(66, ExampleBytes(99))], 0)
  }

  lemma RefusalSpoils()
    ensures var c := ExampleCache(CACHE_ENTRIES);
            c.Agrees(RefusingCard()) && Ensure(c, RefusingCard(), 99) == Ensured(SpoiledCache(), None)
  {
    hide ExampleBytes;
    var c := ExampleCache(CACHE_ENTRIES);
    assert forall i :: 0 <= i < CACHE_ENTRIES ==> c.entries[i] == ExampleEntry(i, CACHE_ENTRIES);
    assert Ensure(c, RefusingCard(), 99).cache.entries == SpoiledCache().entries;
  }

  lemma FirstBytes()
    ensures ExampleBytes(66)[0] == 66 && ExampleBytes(67)[0] == 67 && ExampleBytes(99)[0] == 99
  {
  }

  /** One byte from the start of a cluster: the first byte of its block, as cached or fetched. */
  lemma ReadFirstByte(card: Card, c: Cache, p: Pos)
    requires c.Valid() && p.offset in {0, 512} && p.length == 1024
    ensures var e := Ensure(c, card, EXAMPLE_VOLUME.BlockNumber(p.currCluster, 0));
            e.idx.Some? ==> Read(EXAMPLE_VOLUME, card, c, p, 1).bytes == [e.cache.entries[e.idx.value].data[0]]
  {
    hide Ensure, Volume.BlockNumber;
    var v := EXAMPLE_VOLUME;
    assert v.BlksPerCluster() == 1;
    assert v.Within(0) == 0 && v.Within(1) == 1;
    assert v.Within(512) == 0 by { assert Rem(0, 512) == 0; }
    assert v.Within(513) == 1 by { assert Rem(1, 512) == 1; }
    var s := ReadStep(v, card, c, p, 1);
    assert Chunk(p, 1) == 1 && !Crosses(v, p, 1);
    if s.Copied? {
      assert Read(v, card, s.cache, s.pos, 0).bytes == [];
    }
  }

  lemma ExampleFileBytes(card: Card)
    requires WellFormed(EXAMPLE_VOLUME, card, EXAMPLE_FILE)
    ensures Bytes(EXAMPLE_VOLUME, card, EXAMPLE_FILE, 0, 1) == [card(66).data[0]]
    ensures Bytes(EXAMPLE_VOLUME, card, EXAMPLE_FILE, 512, 513) == [card(67).data[0]]
  {
    hide WellFormed;
    var v, f := EXAMPLE_VOLUME, EXAMPLE_FILE;
    assert v.BlksPerCluster() == 1;
    assert v.ClusterOf(0) == 0 && v.Within(0) == 0;
    assert v.ClusterOf(512) == 1 && v.Within(512) == 0 by { assert Quot(0, 512) == 0 && Rem(0, 512) == 0; }
    assert Bytes(v, card, f, 1, 1) == [] && Bytes(v, card, f, 513, 513) == [];
  }

  lemma RefusingIsWellFormed()
    ensures WellFormed(EXAMPLE_VOLUME, RefusingCard(), EXAMPLE_FILE)
    ensures PosOk(EXAMPLE_VOLUME, EXAMPLE_FILE, Pos(0, 1024, 2, 2))
  {
    hide LinkedTo;
    var v, card := EXAMPLE_VOLUME, RefusingCard();
    assert v.BlksPerCluster() == 1;
    assert Quot(1023, 512) == 1 by { assert Quot(511, 512) == 0; }
    assert ClusterOk(v, card, 2) && ClusterOk(v, card, 3);
    ExampleLink();
    assert card(1) == ExampleCard()(1);
  }

  /** An agreeing cache, one refused block, and then a read of the file returns the refused block's
      byte. */
  lemma RefusedReadExample()
    ensures var v, card, f, p := EXAMPLE_VOLUME, RefusingCard(), EXAMPLE_FILE, Pos(0, 1024, 2, 2);
            var c := ExampleCache(CACHE_ENTRIES);
            && WellFormed(v, card, f) && PosOk(v, f, p) && c.Agrees(card) && !card(99).ok
            && Read(v, card, Ensure(c, card, 99).cache, p, 1).bytes != Bytes(v, card, f, 0, 1)
  {
    hide WellFormed, PosOk, Read, Bytes, ExampleBytes, ExampleCache;
    var v, card, p := EXAMPLE_VOLUME, RefusingCard(), Pos(0, 1024, 2, 2);
    RefusingIsWellFormed();
    RefusalSpoils();
    ExampleFileBytes(card);
    FirstBytes();
    ReadFirstByte(card, SpoiledCache(), p);
    assert v.BlksPerCluster() == 1;
    assert v.BlockNumber(2, 0) == 66;
    assert SpoiledCache().entries[0].block == 66;
  }

  // ----- listing clusters --------------------------------------------------------------------

  /** Listing one cluster of a two-cluster file leaves an inconsistent position, and the next read
      returns a byte of the wrong cluster. */
  lemma FileClustersExample()
    ensures var v, card, f, p := EXAMPLE_VOLUME, ExampleCard(), EXAMPLE_FILE, Pos(0, 1024, 2, 2);
            var r := FileClusters(v, card, ExampleCache(0), p, 1);
            && WellFormed(v, card, f) && PosOk(v, f, p)
            && r.clusters == [2] && r.pos == Pos(512, 1024, 2, 2) && !PosOk(v, f, r.pos)
            && Read(v, card, r.cache, r.pos, 1).bytes != Bytes(v, card, f, 512, 513)
  {
    hide WellFormed, Read, Bytes, ExampleBytes, ExampleCache, Ensure, Link;
    var v, card, f, p := EXAMPLE_VOLUME, ExampleCard(), EXAMPLE_FILE, Pos(0, 1024, 2, 2);
    ExampleIsWellFormed();
    ExampleStartsEmpty();
    assert v.BlksPerCluster() == 1;
    assert v.Within(0) == 0;
    assert v.Within(512) == 0 && v.ClusterOf(512) == 1 by { assert Rem(0, 512) == 0 && Quot(0, 512) == 0; }
    var c := ExampleCache(0);
    var w := ClusterNext(v, card, c, 2);
    EnsureAgrees(c, card, v.FatBlock(2));
    var r := FileClusters(v, card, c, p, 1);
    assert List(v, card, w.cache, Pos(512, 1024, 2, 2), w.next.value, 512, 0) == Listed(w.cache, Pos(512, 1024, 2, 2), []);
    assert [2] + [] == [2];
    assert r == Listed(w.cache, Pos(512, 1024, 2, 2), [2]);
    ReadFirstByte(card, r.cache, r.pos);
    EnsureAgrees(r.cache, card, 66);
    ExampleFileBytes(card);
    FirstBytes();
  }
}
