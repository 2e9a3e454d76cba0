/** Files on the simulated card, found by name and read through the whole stack: the driver's bytes, the
    block cache, the cluster chains, the directory and the file handle. */
module CardFiles {
  import opened Words
  import opened BlockCache
  import opened FatVolume
  import opened FatRead
  import opened FatDirectory
  import opened FatFind
  import opened FatNames
  import opened FatSearch
  import opened BlockMedium
  import opened FileSystem
  import SdDriver

  /** Bytes per cluster: 512 times a power of two. */
  function ClusterSize(v: Volume): (n: nat)
    ensures n > 0
  {
    0x200 * Pow2(v.blksPerClusterShift)
  }

  function Div(a: nat, b: nat): (r: nat)
    requires b > 0
  {
    DivisionBounds(a, b);
    a / b
  }

  lemma DivisionBounds(a: nat, b: nat)
    requires b > 0
    ensures a / b >= 0
  {
  }

  /** Where byte `q` of a file is in the image: clusters, numbered from 2, follow the start of the heap. */
  ghost function ImageOffset(v: Volume, f: File, q: nat): int
    requires Div(q, ClusterSize(v)) < |f.chain|
  {
    0x200 * v.heapStart + (f.chain[Div(q, ClusterSize(v))] - 2) * ClusterSize(v) + q % ClusterSize(v)
  }

  lemma QuotIsDivision(a: nat, b: nat)
    requires b > 0
    ensures Quot(a, b) == Div(a, b) && Rem(a, b) == a % b
  {
    hide Quot, Rem;
    QuotRem(a, b);
    DivisionIsUnique(a, b, Quot(a, b), Rem(a, b));
  }

  lemma DivisionIsUnique(a: nat, b: nat, q: nat, r: nat)
    requires r < b && a == q * b + r
    ensures q == a / b && r == a % b
  {
    SizeOfMultiple(q - a / b, b);
    assert (q - a / b) * b == a % b - r;
  }

  lemma SizeOfMultiple(d: int, b: nat)
    ensures d > 0 ==> d * b >= b
    ensures d < 0 ==> d * b + b <= 0
  {
  }

  /** It is in the block that the volume's arithmetic gives, at the same place as in the file's block. */
  lemma OffsetOfBlock(v: Volume, f: File, q: nat)
    requires v.ClusterOf(q) < |f.chain|
    ensures v.ClusterOf(q) == Div(q, ClusterSize(v))
    ensures ImageOffset(v, f, q) == DataBlock(v, f, q) * BLOCK_LEN + q % BLOCK_LEN
  {
    hide Quot, Rem, Pow2, Div;
    var n := v.BlksPerCluster();
    QuotIsDivision(q, BLOCK_LEN * n);
    RemOfBlocks(q, n);
    var r := v.Within(q);
    assert r == BLOCK_LEN * (r / BLOCK_LEN) + q % BLOCK_LEN;
    BlocksToBytes(f.chain[v.ClusterOf(q)] as int - 2, n);
  }

  lemma BlocksToBytes(m: int, n: nat)
    ensures m * n * BLOCK_LEN == m * (BLOCK_LEN * n)
  {
  }

  /** The file is in the part of the image that block numbers reach without wrapping. */
  ghost predicate InImage(v: Volume, image: seq<byte>, f: File) {
    forall q: nat :: q < f.length && Div(q, ClusterSize(v)) < |f.chain| ==>
      0 <= ImageOffset(v, f, q) < |image| <= TWO32
  }

  lemma FileByteInImage(v: Volume, image: seq<byte>, f: File, q: nat)
    requires WellFormed(v, ImageCard(image), f) && InImage(v, image, f) && q < f.length && v.ClusterOf(q) < |f.chain|
    ensures v.ClusterOf(q) == Div(q, ClusterSize(v)) && 0 <= ImageOffset(v, f, q) < |image|
    ensures ByteAt(v, ImageCard(image), f, q) == image[ImageOffset(v, f, q)]
  {
    hide WellFormed, Quot, Rem, ClusterOk, ImageOffset, ClusterSize, Div;
    var card, b := ImageCard(image), DataBlock(v, f, q);
    BlockInHeap(v, card, f, q);
    OffsetOfBlock(v, f, q);
    ImageByteOf(image, b, q % BLOCK_LEN);
  }

  lemma ImageByteOf(image: seq<byte>, b: nat, j: nat)
    requires j < BLOCK_LEN && b * BLOCK_LEN + j < |image| <= TWO32
    ensures ImageCard(image)(b).data[j] == image[b * BLOCK_LEN + j]
  {
    hide SdDriver.ImageByte;
    assert SdDriver.Seek(b) == b * BLOCK_LEN;
    assert ImageCard(image)(b).data[j] == SdDriver.ImageByte(image, b * BLOCK_LEN + j);
    WithinImage(image, b * BLOCK_LEN + j);
  }

  lemma WithinImage(image: seq<byte>, i: nat)
    requires i < |image|
    ensures SdDriver.ImageByte(image, i) == image[i]
  {
  }

  /** The position of a freshly opened file. */
  lemma OpenedIsConsistent(v: Volume, f: File, p: Pos)
    requires p.offset == 0 && f.length <= p.length && p.currCluster == p.firstCluster
    requires (f.length > 0 ==> f.chain != []) && (f.chain != [] ==> p.firstCluster == f.chain[0])
    ensures PosOk(v, f, p)
  {
  }

  /** An empty cache holds nothing of any file. */
  lemma NothingCached(v: Volume, card: Card, c: Cache, f: File)
    requires WellFormed(v, card, f) && Empty(c)
    ensures Uncached(v, c, f, 0) && c.Agrees(card)
  {
    hide WellFormed, DataBlock;
    forall i, x | 0 <= i < CACHE_ENTRIES && 0 <= x < f.length
      ensures !IsDataBlock(v, f, x, c.entries[i].block)
    {
      InChain(v, card, f, x);
      BlockBelowInvalid(v, card, f, x);
    }
  }

  lemma BlockBelowInvalid(v: Volume, card: Card, f: File, x: nat)
    requires WellFormed(v, card, f) && x < f.length && v.ClusterOf(x) < |f.chain|
    ensures DataBlock(v, f, x) < INVALID_BLOCK
  {
    BlockInHeap(v, card, f, x);
  }

  /** One piece read in order. */
  method ReadPiece(fs: FileSys, ghost card: Card, obj: ObjState, chunk: nat, ghost f: File) returns (piece: seq<byte>)
    requires fs.Valid() && fs.sd.Gives(card) && WellFormed(fs.volume, card, f) && Acyclic(fs.volume, f)
    requires PosOk(fs.volume, f, obj.Position()) && obj.length == f.length && obj.offset <= f.length
    requires fs.Cached().Agrees(card) && Ahead(fs.volume, fs.Cached(), f, obj.offset)
    modifies fs, fs.blockCache, obj, fs.sd.Objects()
    ensures fs.Valid() && fs.sd.Gives(card)
    ensures obj.length == f.length && old(obj.offset) <= obj.offset <= f.length
    ensures PosOk(fs.volume, f, obj.Position()) && fs.Cached().Agrees(card) && Ahead(fs.volume, fs.Cached(), f, obj.offset)
    ensures |piece| == Min(chunk, f.length - old(obj.offset)) && obj.offset == old(obj.offset) + |piece|
    ensures piece == Bytes(fs.volume, card, f, old(obj.offset), obj.offset)
  {
    hide WellFormed, Acyclic, PosOk, Ahead, Read, Harmless, NeverStale, Bytes, Medium.Gives;
    ghost var c, p := fs.Cached(), obj.Position();
    AheadNeverStale(fs.volume, card, c, f, p, chunk);
    ReadReturnsFileBytes(fs.volume, card, c, f, p, chunk);
    ReadExactlyWhenHarmless(fs.volume, card, c, f, p, chunk);
    var buf := new byte[chunk];
    var n := fs.ObjectRead(card, obj, buf, chunk);
    piece := buf[..n];
  }

  lemma UncachedIsAhead(v: Volume, c: Cache, f: File)
    requires c.Valid() && Uncached(v, c, f, 0)
    ensures Ahead(v, c, f, 0)
  {
    hide IsDataBlock;
  }

  lemma ChainOfContent(v: Volume, card: Card, f: File)
    requires WellFormed(v, card, f)
    ensures f.length > 0 ==> f.chain != []
  {
  }

  /** The bytes are those of the image that the file's cluster chain selects. */
  ghost predicate FromImage(v: Volume, image: seq<byte>, f: File, bytes: seq<byte>) {
    && |bytes| == f.length
    && forall q: nat :: q < f.length ==>
         && Div(q, ClusterSize(v)) < |f.chain| && 0 <= ImageOffset(v, f, q) < |image|
         && bytes[q] == image[ImageOffset(v, f, q)]
  }

  /** A file on the card's image, read in pieces of any size through a cache that agrees with the card and
      holds nothing of the file but its first block as the newest: the result is the bytes of the image
      that the cluster chain selects. */
  method ReadFile(fs: FileSys, obj: ObjState, chunk: nat, ghost image: seq<byte>, ghost f: File) returns (bytes: seq<byte>)
    requires chunk > 0 && fs.Valid() && fs.sd.Gives(ImageCard(image)) && fs.Cached().Agrees(ImageCard(image))
    requires WellFormed(fs.volume, ImageCard(image), f) && Acyclic(fs.volume, f) && InImage(fs.volume, image, f)
    requires Ahead(fs.volume, fs.Cached(), f, 0)
    requires obj.offset == 0 && obj.length == f.length && obj.currCluster == obj.firstCluster
    requires f.chain != [] ==> obj.firstCluster == f.chain[0]
    modifies fs, fs.blockCache, obj, fs.sd.Objects()
    ensures fs.Valid() && fs.sd.Gives(ImageCard(image)) && FromImage(fs.volume, image, f, bytes)
  {
    hide WellFormed, Acyclic, PosOk, Ahead, Bytes, InImage, ImageCard, ImageOffset, Medium.Gives;
    ghost var v, card := fs.volume, ImageCard(image);
    ChainOfContent(v, card, f);
    OpenedIsConsistent(v, f, obj.Position());
    bytes := [];
    NoBytes(v, card, f);
    while obj.offset < obj.length
      invariant fs.Valid() && fs.sd.Gives(card) && obj.length == f.length && obj.offset <= f.length
      invariant PosOk(v, f, obj.Position()) && fs.Cached().Agrees(card) && Ahead(v, fs.Cached(), f, obj.offset)
      invariant bytes == Bytes(v, card, f, 0, obj.offset)
      decreases f.length - obj.offset
    {
      ghost var from := obj.offset;
      var piece := ReadPiece(fs, card, obj, chunk, f);
      BytesJoin(v, card, f, 0, from, obj.offset);
      bytes := bytes + piece;
    }
    FileIsInImage(v, image, f);
  }

  // ----- opening by name ---------------------------------------------------------------------

  /** A listed directory has room for its entries and ends in the marker. */
  lemma {:induction false} ListingSpan(v: Volume, card: Card, g: File, off: nat, items: seq<Item>, hasLFN: bool)
    requires WellFormed(v, card, g) && Lists(v, card, g, off, items, hasLFN)
    ensures EntryTotal(items) > 0 && off + ENTRY_LEN * EntryTotal(items) <= g.length
    ensures EntryAt(v, card, g, off + ENTRY_LEN * (EntryTotal(items) - 1))[0] == 0
    decreases |items|
  {
    hide WellFormed, IsName, NamedEntryAt, PassedOver, ShortEntry, Bytes;
    if items == [] {
      assert off + ENTRY_LEN * 0 == off;
    } else {
      var k := EntryCount(items[0]);
      var lfn := items[0].Gap? && EntryAt(v, card, g, off)[0xb] == 0x0f;
      ListingSpan(v, card, g, off + ENTRY_LEN * k, items[1..], lfn);
      assert off + ENTRY_LEN * k + ENTRY_LEN * (EntryTotal(items[1..]) - 1) == off + ENTRY_LEN * (EntryTotal(items) - 1);
    }
  }

  /** The file that a directory entry names by its bytes, apart from the directory and not yet in the
      cache. */
  ghost predicate Names(v: Volume, image: seq<byte>, c: Cache, g: File, e: RawEntry, f: File)
    requires c.Valid()
  {
    && e[0x1c] as int + 0x100 * e[0x1d] as int + 0x1_0000 * e[0x1e] as int + 0x100_0000 * e[0x1f] as int == f.length
    && (f.chain != [] ==>
          f.chain[0] == e[0x1a] as int + 0x100 * e[0x1b] as int + 0x1_0000 * e[0x14] as int + 0x100_0000 * (e[0x15] as int % 0x10))
    && WellFormed(v, ImageCard(image), f) && Acyclic(v, f) && InImage(v, image, f)
    && Apart(g, f) && Uncached(v, c, f, 0)
  }

  /** What a search in a listed directory finds, and what it leaves in the cache. */
  lemma SearchedByName(v: Volume, card: Card, c: Cache, g: File, p: Pos, items: seq<Item>, name: seq<nat>, ucs: seq<nat>, f: File)
    requires WellFormed(v, card, g) && Acyclic(v, g) && PosOk(v, g, p) && p.offset == 0 && |ucs| == 256
    requires c.Valid() && c.Agrees(card) && Steady(v, card, c, p, EntryTotal(items))
    requires Lists(v, card, g, 0, items, false) && IsSearchName(name)
    requires WellFormed(v, card, f) && Apart(g, f) && Uncached(v, c, f, 0)
    ensures p.offset <= p.length && FoundFirst(v, card, c, g, p, items, name, false, ucs)
    ensures var r := Find(v, card, c, p, name, false, ucs);
            r.cache.Agrees(card) && Uncached(v, r.cache, f, 0)
  {
    hide WellFormed, Acyclic, PosOk, Steady, Lists, FoundFirst, EntryTotal, IsSearchName, Find, SearchIn, EntriesFrom, Uncached,
         Apart, Bytes;
    var n := EntryTotal(items);
    ListingSpan(v, card, g, 0, items, false);
    FindsFirstOfThatName(v, card, c, g, p, items, name, false, ucs);
    EntriesFromAt(v, card, g, 0, n, n - 1);
    MarkerEndsSearch(EntriesFrom(v, card, g, 0, n), name, false, ucs, n - 1);
    var c', p' := SearchIsInBytes(v, card, c, g, p, n, name, false, ucs, f);
  }

  /** `file_open` by name and the reading of the file: whatever agreeing cache the search starts with, as
      long as none of its trips is stale and nothing of the file is cached, a file is found exactly when
      the directory lists the name, and what is read is the image's bytes of the first such file. */
  method ReadByName(fs: FileSys, rootCluster: nat, name: seq<nat>, chunk: nat,
                    ghost image: seq<byte>, ghost g: File, ghost items: seq<Item>, ghost f: File)
    returns (found: bool, bytes: seq<byte>)
    requires chunk > 0 && fs.Valid() && fs.sd.Gives(ImageCard(image)) && fs.Cached().Agrees(ImageCard(image))
    requires WellFormed(fs.volume, ImageCard(image), g) && Acyclic(fs.volume, g) && g.chain != [] && g.chain[0] == rootCluster
    requires Lists(fs.volume, ImageCard(image), g, 0, items, false) && IsSearchName(name) && |name| < 256
    requires Steady(fs.volume, ImageCard(image), fs.Cached(), Pos(0, TWO32 - 1, rootCluster, rootCluster), EntryTotal(items))
    requires var m := Matching(items, name, 0);
             m.Some? ==>
               && m.value.at + ENTRY_LEN <= g.length
               && Names(fs.volume, image, fs.Cached(), g, EntryAt(fs.volume, ImageCard(image), g, m.value.at), f)
    modifies fs, fs.blockCache, fs.sd.Objects()
    ensures fs.Valid() && fs.sd.Gives(ImageCard(image))
    ensures found <==> exists i :: 0 <= i < |items| && NameOf(items[i]) == Some(name)
    ensures found ==> FromImage(fs.volume, image, f, bytes)
  {
    hide WellFormed, Acyclic, PosOk, Steady, Lists, EntryTotal, IsSearchName, Find, Uncached, Apart, Bytes, InImage, ImageCard,
         Medium.Gives, Ahead, StaysInside, Matching, NameOf, FromImage, Decode;
    ghost var v, card := fs.volume, ImageCard(image);
    ghost var other := if Matching(items, name, 0).Some? then f else File([], 0);
    if Matching(items, name, 0).None? {
      NothingIsApart(v, card, fs.Cached(), g, other);
    }
    var dir := new ObjState(rootCluster, TWO32 - 1);
    var ucs := new nat[256];
    LengthFits(v, card, g);
    OpenedIsConsistent(v, g, dir.Position());
    SearchedByName(v, card, fs.Cached(), g, dir.Position(), items, name, ucs[..], other);
    ShorterNameStaysInside(v, card, fs.Cached(), dir.Position(), name, false, ucs[..]);
    var entry := fs.DirFind(card, dir, ucs, name);
    if entry.None? {
      return false, [];
    }
    UncachedIsAhead(v, fs.Cached(), f);
    DecodedNumbers(EntryAt(v, card, g, Matching(items, name, 0).value.at), Matching(items, name, 0).value.long);
    var obj := new ObjState(entry.value.firstCluster, entry.value.dataLength);
    found := true;
    bytes := ReadFile(fs, obj, chunk, image, f);
  }

  lemma LengthFits(v: Volume, card: Card, g: File)
    requires WellFormed(v, card, g)
    ensures g.length <= TWO32 - 1
  {
  }

  lemma NoBytes(v: Volume, card: Card, f: File)
    requires WellFormed(v, card, f)
    ensures Bytes(v, card, f, 0, 0) == []
  {
  }

  lemma FileIsInImage(v: Volume, image: seq<byte>, f: File)
    requires WellFormed(v, ImageCard(image), f) && InImage(v, image, f)
    ensures FromImage(v, image, f, Bytes(v, ImageCard(image), f, 0, f.length))
  {
    hide WellFormed, Bytes, ImageCard, Quot, ImageOffset, InImage, ClusterSize, Div;
    var card := ImageCard(image);
    forall q: nat | q < f.length
      ensures && Div(q, ClusterSize(v)) < |f.chain| && 0 <= ImageOffset(v, f, q) < |image|
              && Bytes(v, card, f, 0, f.length)[q] == image[ImageOffset(v, f, q)]
    {
      InChain(v, card, f, q);
      BytesAt(v, card, f, 0, f.length, q);
      FileByteInImage(v, image, f, q);
    }
  }
}
