/** Directories on which a search fails: a stale entry, a directory without an end marker, and a name that
    has no end. */
module DirExamples {
  import opened Words
  import opened BlockCache
  import opened FatVolume
  import opened FatRead
  import opened FatSeek
  import opened FatDirectory
  import opened FatFind
  import opened FatNames
  import opened FatSearch
  import opened FatExamples

  // ----- directories of equal bytes ----------------------------------------------------------

  /** An entry of equal bytes, which is a live 8.3 entry for the bytes used here. */
  function EvenEntry(b: byte): (e: RawEntry)
    ensures forall j :: 0 <= j < ENTRY_LEN ==> e[j] == b
  {
    seq(ENTRY_LEN, j => b)
  }

  function EvenBytes(b: byte, n: nat): (s: seq<byte>)
    ensures |s| == n && forall j :: 0 <= j < n ==> s[j] == b
  {
    seq(n, j => b)
  }

  lemma EvenIsShort(b: byte)
    requires b in {0x40, 0x42, 0x43}
    ensures ShortEntry(EvenEntry(b), EvenBytes(b, 8), EvenBytes(b, 3))
  {
    var e := EvenEntry(b);
    assert e[..8] == EvenBytes(b, 8);
    assert e[8..11] == EvenBytes(b, 3);
  }

  /** The name an even entry is found by. */
  function EvenName(b: byte): seq<nat> {
    ShortAsLong(EvenBytes(b, 8), EvenBytes(b, 3))
  }

  lemma EvenNameStarts(b: byte)
    requires b in {0x40, 0x43}
    ensures |EvenName(b)| > 0 && EvenName(b)[0] == AsLowerCase(b) && IsSearchName(EvenName(b))
  {
    hide Lowered, AsLowerCase;
    var base, ext := EvenBytes(b, 8), EvenBytes(b, 3);
    LoweredStart(base);
    LoweredIsNonzero(base);
    LoweredIsNonzero(ext);
  }

  lemma LoweredStart(s: seq<byte>)
    requires s != [] && s[0] > 0x20
    ensures |Lowered(s)| > 0 && Lowered(s)[0] == AsLowerCase(s[0])
  {
  }

  /** Block `b` of the example medium is even. */
  lemma ExampleIsEven(b: nat, from: nat)
    requires b in {64, 66, 67} && from + ENTRY_LEN <= BLOCK_LEN
    ensures ExampleBytes(b)[from..from + ENTRY_LEN] == EvenEntry(b)
  {
  }

  lemma ExampleEntryAt(off: nat)
    requires WellFormed(EXAMPLE_VOLUME, ExampleCard(), EXAMPLE_FILE) && off in {480, 992}
    ensures EntryAt(EXAMPLE_VOLUME, ExampleCard(), EXAMPLE_FILE, off) == EvenEntry(if off == 480 then 66 else 67)
  {
    hide WellFormed, Bytes, ExampleBytes;
    var v, card, f := EXAMPLE_VOLUME, ExampleCard(), EXAMPLE_FILE;
    ExampleGeometry();
    ChunkIsFileBytes(v, card, f, off, ENTRY_LEN);
    ExampleIsEven(if off == 480 then 66 else 67, 480);
  }

  lemma ExampleGeometry()
    ensures var v := EXAMPLE_VOLUME;
            && v.ClusterBytes() == 512 && v.BlksPerCluster() == 1
            && v.ClusterOf(480) == 0 && v.Within(480) == 480 && v.Within(512) == 0
            && v.ClusterOf(992) == 1 && v.Within(992) == 480 && v.ClusterOf(1024) == 2 && v.Within(1024) == 0
            && v.Within(1056) == 32
  {
    assert Quot(480, 512) == 0 && Rem(480, 512) == 480 && Quot(0, 512) == 0 && Rem(0, 512) == 0 && Rem(32, 512) == 32;
    assert Quot(512, 512) == 1 && Rem(512, 512) == 0 && Rem(544, 512) == 32;
  }

  // ----- a stale entry -----------------------------------------------------------------------

  lemma StaleAt480()
    ensures Stale(EXAMPLE_VOLUME, ExampleCache(CACHE_ENTRIES), Pos(480, TWO32 - 1, 2, 2), ENTRY_LEN)
  {
    hide ExampleBytes, Quot, Rem;
    var v, c := EXAMPLE_VOLUME, ExampleCache(CACHE_ENTRIES);
    ExampleGeometry();
    assert v.BlockNumber(2, 480) == 66 && v.FatBlock(2) == 1;
    assert forall i :: 0 <= i < CACHE_ENTRIES ==> c.entries[i] == ExampleEntry(i, CACHE_ENTRIES);
    assert c.entries[0].block == 66;
  }

  lemma ExampleCacheAgrees(k: nat)
    requires k <= CACHE_ENTRIES
    ensures ExampleCache(k).Agrees(ExampleCard())
  {
    hide ExampleBytes;
    var c := ExampleCache(k);
    assert forall i :: 0 <= i < CACHE_ENTRIES ==> c.entries[i] == ExampleEntry(i, k);
  }

  lemma DirectoryPosition(off: nat)
    requires off in {480, 992}
    ensures PosOk(EXAMPLE_VOLUME, EXAMPLE_FILE, Pos(off, TWO32 - 1, if off == 480 then 2 else 3, 2))
  {
    hide Quot, Rem;
    ExampleGeometry();
  }

  /** A read of one entry within a block is one trip. */
  lemma EntryIsOneTrip(v: Volume, card: Card, c: Cache, p: Pos)
    requires c.Valid() && p.offset % BLOCK_LEN + ENTRY_LEN <= BLOCK_LEN && p.offset + ENTRY_LEN <= p.length
    ensures Chunk(p, ENTRY_LEN) == ENTRY_LEN
    ensures var s := ReadStep(v, card, c, p, ENTRY_LEN);
            s.Copied? ==> Read(v, card, c, p, ENTRY_LEN) == ReadResult(s.cache, s.pos, s.bytes)
  {
    hide ReadStep, Read, Harmless, HarmlessTrip;
    var s := ReadStep(v, card, c, p, ENTRY_LEN);
    if s.Copied? {
      ReadUnfolds(v, card, c, p, ENTRY_LEN, s);
      ReadEnds(v, card, s.cache, s.pos, 0);
      assert s.bytes + [] == s.bytes;
    }
  }

  lemma ZeroEndsNext(v: Volume, card: Card, c: Cache, p: Pos, name: seq<nat>, ucs: seq<nat>)
    requires c.Valid() && p.offset <= p.length
    requires var r := Read(v, card, c, p, ENTRY_LEN); |r.bytes| == ENTRY_LEN && r.bytes[0] == 0
    ensures Find(v, card, c, p, name, false, ucs).entry == None
  {
    hide Read, Holds, Collect;
  }

  /** The cache reached by eight block reads, and a directory handle before the last entry of its first
      cluster: the entry is live and has its name, and yet `dir_find` finds nothing, because it sees the
      FAT block's bytes. */
  lemma StaleDirectoryExample(ucs: seq<nat>)
    ensures var v, card, f, p := EXAMPLE_VOLUME, ExampleCard(), EXAMPLE_FILE, Pos(480, TWO32 - 1, 2, 2);
            var c := EnsureRun(ExampleCache(0), card, EXAMPLE_ACCESSES);
            && Empty(ExampleCache(0)) && WellFormed(v, card, f) && PosOk(v, f, p) && c.Agrees(card)
            && ShortEntry(EntryAt(v, card, f, 480), EvenBytes(66, 8), EvenBytes(66, 3))
            && Find(v, card, c, p, EvenName(66), false, ucs).entry == None
  {
    hide WellFormed, PosOk, Read, ReadStep, Stale, EnsureRun, Bytes, Find, ExampleCache, ShortEntry, EvenName, Quot, Rem;
    var v, card, f, p, c := EXAMPLE_VOLUME, ExampleCard(), EXAMPLE_FILE, Pos(480, TWO32 - 1, 2, 2), ExampleCache(CACHE_ENTRIES);
    ExampleIsWellFormed();
    ExampleStartsEmpty();
    ExampleIsReachable(0);
    assert EXAMPLE_ACCESSES[0..] == EXAMPLE_ACCESSES;
    ExampleCacheAgrees(CACHE_ENTRIES);
    DirectoryPosition(480);
    ExampleEntryAt(480);
    EvenIsShort(66);
    StaleAt480();
    StepCopies(v, card, c, f, p, ENTRY_LEN);
    EntryIsOneTrip(v, card, c, p);
    assert v.FatBlock(2) == 1;
    assert ExampleBytes(1)[480..480 + ENTRY_LEN][0] == 0;
    ZeroEndsNext(v, card, c, p, EvenName(66), ucs);
  }

  // ----- no end marker -----------------------------------------------------------------------

  /** The bytes of the example directory: its two blocks hold only 'B' and 'C'. */
  lemma ExampleDirectoryBytes(q: nat)
    requires WellFormed(EXAMPLE_VOLUME, ExampleCard(), EXAMPLE_FILE) && q < 1024
    ensures ByteAt(EXAMPLE_VOLUME, ExampleCard(), EXAMPLE_FILE, q) in {0x42, 0x43}
  {
    hide WellFormed;
    var v := EXAMPLE_VOLUME;
    assert v.BlksPerCluster() == 1;
    if q < 512 {
      assert v.ClusterOf(q) == 0 && v.Within(q) == q;
    } else {
      assert v.ClusterOf(q) == 1 && v.Within(q) == q - 512 by { assert Quot(q - 512, 512) == 0 && Rem(q - 512, 512) == q - 512; }
    }
  }

  lemma NothingCachedYet()
    ensures Ahead(EXAMPLE_VOLUME, ExampleCache(0), EXAMPLE_FILE, 992)
  {
    hide ExampleBytes, Quot, Rem;
    var v, c, f := EXAMPLE_VOLUME, ExampleCache(0), EXAMPLE_FILE;
    assert v.BlksPerCluster() == 1;
    forall i, x | 0 <= i < CACHE_ENTRIES && 992 <= x < f.length
      ensures !IsDataBlock(v, f, x, c.entries[i].block)
    {
      assert c.entries[i] == ExampleEntry(i, 0);
    }
  }

  lemma ExampleIsAcyclic()
    ensures Acyclic(EXAMPLE_VOLUME, EXAMPLE_FILE) && ExampleLinks()
  {
    assert ExampleBytes(1)[12] == 0 && ExampleBytes(1)[13] == 0 && ExampleBytes(1)[14] == 0 && ExampleBytes(1)[15] == 0;
  }

  /** The FAT entry of the directory's last cluster. */
  ghost predicate ExampleLinks() {
    Link(ExampleCard()(1).data, 3) == 0
  }

  /** After the last entry the handle is at cluster number 0, the end-of-chain marker. */
  lemma LastEntryLeadsNowhere() returns (r: ReadResult)
    ensures var v, card, c, p := EXAMPLE_VOLUME, ExampleCard(), ExampleCache(0), Pos(992, TWO32 - 1, 3, 2);
            && c.Valid() && r == Read(v, card, c, p, ENTRY_LEN) && r.bytes == EvenEntry(67)
            && r.pos == Pos(1024, TWO32 - 1, 0, 2) && r.cache.Valid() && r.cache.Agrees(card)
  {
    hide WellFormed, PosOk, Read, ReadStep, Bytes, ExampleCache, Acyclic, Ahead, Harmless, NeverStale, Quot, Rem, Link, Chunk;
    var v, card, f, p, c := EXAMPLE_VOLUME, ExampleCard(), EXAMPLE_FILE, Pos(992, TWO32 - 1, 3, 2), ExampleCache(0);
    ExampleIsWellFormed();
    ExampleCacheAgrees(0);
    ExampleIsAcyclic();
    DirectoryPosition(992);
    ExampleGeometry();
    NothingCachedYet();
    AheadNeverStale(v, card, c, f, p, ENTRY_LEN);
    ReadReturnsFileBytes(v, card, c, f, p, ENTRY_LEN);
    ReadExactlyWhenHarmless(v, card, c, f, p, ENTRY_LEN);
    ExampleEntryAt(992);
    EntryIsOneTrip(v, card, c, p);
    StepLink(v, card, c, f, p, ENTRY_LEN);
    r := Read(v, card, c, p, ENTRY_LEN);
  }

  /** The next entry comes from the block two before the cluster heap. */
  lemma PhantomEntry(c: Cache) returns (r: ReadResult)
    requires c.Valid() && c.Agrees(ExampleCard())
    ensures var p := Pos(1024, TWO32 - 1, 0, 2);
            r == Read(EXAMPLE_VOLUME, ExampleCard(), c, p, ENTRY_LEN) && r.bytes == EvenEntry(0x40)
  {
    hide Read, ExampleBytes, Ensure, Quot, Rem, Chunk;
    var v, card, p := EXAMPLE_VOLUME, ExampleCard(), Pos(1024, TWO32 - 1, 0, 2);
    ExampleGeometry();
    assert v.BlockNumber(0, 0) == 64;
    EnsureAgrees(c, card, 64);
    EntryIsOneTrip(v, card, c, p);
    ExampleIsEven(64, 0);
    r := Read(v, card, c, p, ENTRY_LEN);
  }

  lemma ShortFound(v: Volume, card: Card, c: Cache, p: Pos, b: byte, name: seq<nat>, ucs: seq<nat>)
    requires c.Valid() && p.offset <= p.length && b in {0x40, 0x43} && |ucs| == 256 && IsSearchName(name)
    requires Read(v, card, c, p, ENTRY_LEN).bytes == EvenEntry(b)
    ensures var r := Read(v, card, c, p, ENTRY_LEN);
            var long := GenerateLfn(ucs, EvenBytes(b, 8), EvenBytes(b, 3));
            Find(v, card, c, p, name, false, ucs).entry ==
            if EvenName(b) == name then Some(Decode(EvenEntry(b), false))
            else Find(v, card, r.cache, r.pos, name, false, long).entry
  {
    hide Read, Holds, Decode, GenerateLfn, FatDirectory.Step, ShortEntry, IsSearchName, ShortAsLong;
    EvenIsShort(b);
    StepOnShort(EvenEntry(b), EvenBytes(b, 8), EvenBytes(b, 3), ucs);
    GeneratedNameIsHeld(ucs, EvenBytes(b, 8), EvenBytes(b, 3), name);
  }

  /** A directory of two full clusters without an end marker: the search takes the marker at the end of
      its chain for a cluster and finds an object that no byte of the directory names. */
  lemma PhantomExample(ucs: seq<nat>)
    requires |ucs| == 256
    ensures var v, card, f, p := EXAMPLE_VOLUME, ExampleCard(), EXAMPLE_FILE, Pos(992, TWO32 - 1, 3, 2);
            && WellFormed(v, card, f) && PosOk(v, f, p)
            && (forall q: nat :: q < 1024 ==> ByteAt(v, card, f, q) in {0x42, 0x43})
            && Find(v, card, ExampleCache(0), p, EvenName(0x40), false, ucs).entry == Some(Decode(EvenEntry(0x40), false))
  {
    hide WellFormed, PosOk, Read, Find, ExampleCache, EvenName, Decode, ByteAt, GenerateLfn, IsSearchName;
    var v, card, f, p := EXAMPLE_VOLUME, ExampleCard(), EXAMPLE_FILE, Pos(992, TWO32 - 1, 3, 2);
    ExampleIsWellFormed();
    DirectoryPosition(992);
    forall q: nat | q < 1024
      ensures ByteAt(v, card, f, q) in {0x42, 0x43}
    {
      ExampleDirectoryBytes(q);
    }
    var name := EvenName(0x40);
    EvenNameStarts(0x40);
    EvenNameStarts(0x43);
    var r := LastEntryLeadsNowhere();
    ShortFound(v, card, ExampleCache(0), p, 0x43, name, ucs);
    var s := PhantomEntry(r.cache);
    ShortFound(v, card, r.cache, r.pos, 0x40, name, GenerateLfn(ucs, EvenBytes(0x43, 8), EvenBytes(0x43, 3)));
  }

  // ----- a name without an end ---------------------------------------------------------------

  /** One cluster of two blocks with a directory in it. */
  const NAMES_VOLUME := Volume(1, 10, 1)
  const NAMES_FILE := File([2], 1024)

  /** Entries 0 to 19 are the parts 1 to 20 of a long name, none of them marked as the last; entry 20 is a
      live short entry, and then the directory ends. */
  function NamesByte(k: nat, j: nat): byte {
    if k < 20 then if j == 0 then k + 1 else if j == 0xb then 0x0f else 1
    else if k == 20 then 0x41
    else 0
  }

  function NamesEntry(k: nat): (e: RawEntry)
    ensures forall j :: 0 <= j < ENTRY_LEN ==> e[j] == NamesByte(k, j)
  {
    seq<byte>(ENTRY_LEN, j requires 0 <= j < ENTRY_LEN => NamesByte(k, j))
  }

  function NamesBlock(b: nat): (r: Block)
    ensures forall i :: 0 <= i < BLOCK_LEN ==> r[i] == NamesByte(if b == 11 then 16 + i / 32 else i / 32, i % 32)
  {
    seq<byte>(BLOCK_LEN, i requires 0 <= i < BLOCK_LEN => NamesByte(if b == 11 then 16 + i / 32 else i / 32, i % 32))
  }

  function NamesCard(): Card {
    (b: nat) => Delivery(NamesBlock(b), true)
  }

  lemma NamesGeometry(off: nat)
    requires off < 1024
    ensures var v := NAMES_VOLUME;
            v.BlksPerCluster() == 2 && v.ClusterBytes() == 1024 && v.ClusterOf(off) == 0 && v.Within(off) == off
  {
    assert Pow2(1) == 2 by { assert Pow2(0) == 1; }
  }

  lemma NamesAreWellFormed()
    ensures WellFormed(NAMES_VOLUME, NamesCard(), NAMES_FILE)
    ensures PosOk(NAMES_VOLUME, NAMES_FILE, Pos(0, TWO32 - 1, 2, 2))
  {
    hide NamesBlock, Quot, Rem;
    NamesGeometry(1023);
    NamesGeometry(0);
    assert ClusterOk(NAMES_VOLUME, NamesCard(), 2);
  }

  lemma NamesEntryAt(k: nat)
    requires WellFormed(NAMES_VOLUME, NamesCard(), NAMES_FILE) && k <= 20
    ensures EntryAt(NAMES_VOLUME, NamesCard(), NAMES_FILE, ENTRY_LEN * k) == NamesEntry(k)
  {
    hide WellFormed, Bytes, NamesBlock, NamesByte, Quot, Rem;
    var v, card, f, off := NAMES_VOLUME, NamesCard(), NAMES_FILE, ENTRY_LEN * k;
    NamesGeometry(off);
    ChunkIsFileBytes(v, card, f, off, ENTRY_LEN);
    NamesSlice(k);
  }

  lemma NamesSlice(k: nat)
    requires k <= 20
    ensures var off := ENTRY_LEN * k;
            NamesBlock(10 + off / BLOCK_LEN)[off % BLOCK_LEN..off % BLOCK_LEN + ENTRY_LEN] == NamesEntry(k)
  {
    hide NamesByte, NamesBlock, NamesEntry;
    var off := ENTRY_LEN * k;
    var s, from := NamesBlock(10 + off / BLOCK_LEN), off % BLOCK_LEN;
    forall j | 0 <= j < ENTRY_LEN
      ensures s[from..from + ENTRY_LEN][j] == NamesEntry(k)[j]
    {
      assert (from + j) % 32 == j;
    }
  }

  /** The twenty parts, from the one with index `m` on. */
  function NamesParts(m: nat): (es: seq<RawEntry>)
    requires m <= 20
    ensures |es| == 20 - m
    decreases 20 - m
  {
    if m == 20 then [] else [NamesEntry(m)] + NamesParts(m + 1)
  }

  lemma PartFacts(k: nat)
    requires k < 20
    ensures var e := NamesEntry(k);
            && IsPart(e) && PassedOver(e) && SeqNumber(e) == k + 1 && !LastLogical(e)
            && forall j: nat :: j < 13 ==> LfnChar(e, j) == 0x101
  {
  }

  lemma PartStores(k: nat, i: nat)
    requires k < 20 && i < 256
    ensures Stored(NamesEntry(k), 256, i) == if 13 * k <= i < 13 * k + 13 then Some(0x101) else None
  {
    hide NamesEntry, LfnChar, IsPart, PassedOver, SeqNumber, LastLogical;
    PartFacts(k);
  }

  lemma {:induction false} PartsStore(m: nat, i: nat)
    requires m <= 20 && i < 256
    ensures LastStored(NamesParts(m), 256, i) == if 13 * m <= i then Some(0x101) else None
    decreases 20 - m
  {
    hide Stored, NamesEntry, IsPart;
    if m < 20 {
      PartsStore(m + 1, i);
      PartStores(m, i);
      assert IsPart(NamesEntry(m)) by { PartFacts(m); }
    }
  }

  /** Whatever the buffer held, every place of it ends up with the same nonzero character. */
  lemma NamesCollected(ucs: seq<nat>)
    requires |ucs| == 256
    ensures CollectAll(ucs, NamesParts(0)) == Ones()
  {
    hide LastStored, CollectAll, NamesParts;
    forall i: nat | i < 256
      ensures CollectAll(ucs, NamesParts(0))[i] == 0x101
    {
      CollectAllStores(ucs, NamesParts(0), i);
      PartsStore(0, i);
    }
  }

  function Ones(): (s: seq<nat>)
    ensures |s| == 256 && forall i :: 0 <= i < 256 ==> s[i] == 0x101
  {
    seq(256, i => 0x101)
  }

  lemma {:induction false} NamesPass(m: nat)
    requires WellFormed(NAMES_VOLUME, NamesCard(), NAMES_FILE) && m <= 20
    ensures Passes(NAMES_VOLUME, NamesCard(), NAMES_FILE, ENTRY_LEN * m, NamesParts(m))
    decreases 20 - m
  {
    hide WellFormed, NamesEntry, PassedOver, Bytes;
    if m < 20 {
      NamesEntryAt(m);
      PartFacts(m);
      NamesPass(m + 1);
      assert ENTRY_LEN * m + ENTRY_LEN == ENTRY_LEN * (m + 1);
    }
  }

  lemma {:induction false} NamesEndInPart(m: nat)
    requires m < 20
    ensures EndsInPart(NamesParts(m), false)
    decreases 20 - m
  {
    hide NamesEntry, IsPart;
    if m < 19 {
      NamesEndInPart(m + 1);
      var es := NamesParts(m);
      assert es[|es| - 1] == NamesParts(m + 1)[|es| - 2];
    } else {
      assert NamesParts(20) == [];
      PartFacts(19);
    }
  }

  lemma LiveAfterParts()
    ensures IsLive(NamesEntry(20))
  {
  }

  /** Through any agreeing cache and whatever the buffer held, `dir_next` returns the short entry with a
      full-size buffer that holds no NUL; and the comparison of that buffer with a name of 256 such
      characters leaves it. */
  lemma NoNulExample(c: Cache, ucs: seq<nat>)
    requires c.Valid() && c.Agrees(NamesCard()) && |ucs| == 256
    ensures var p := Pos(0, TWO32 - 1, 2, 2);
            var r := Next(NAMES_VOLUME, NamesCard(), c, p, DEFAULT_FLAGS, false, Some(ucs));
            && WellFormed(NAMES_VOLUME, NamesCard(), NAMES_FILE) && PosOk(NAMES_VOLUME, NAMES_FILE, p)
            && r.entry.Some? && r.ucs == Some(Ones()) && 0 !in r.ucs.value
            && IsSearchName(Ones()) && ReadsPast(r.ucs.value, Ones(), TWO32 - 1, 0)
  {
    hide WellFormed, PosOk, Steady, Next, Bytes, CollectAll, NamesParts, NamesEntry, IsLive, Passes, EndsInPart, ReadsPast, NamesBlock,
         Ones, Quot, Rem, GenerateLfn, Decode;
    var v, card, f, p := NAMES_VOLUME, NamesCard(), NAMES_FILE, Pos(0, TWO32 - 1, 2, 2);
    NamesAreWellFormed();
    NamesGeometry(0);
    WithinClusterIsSteady(v, card, c, p, 21);
    NamesPass(0);
    NamesEntryAt(20);
    LiveAfterParts();
    NamesEndInPart(0);
    NamesCollected(ucs);
    NextPasses(v, card, c, f, p, NamesParts(0), false, ucs);
    assert Overruns(Ones(), Ones(), TWO32 - 1) by { assert Ones()[..256] == Ones(); }
    ReadsPastIff(Ones(), Ones(), TWO32 - 1);
  }
}
