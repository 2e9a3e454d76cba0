/** `dir_find` as a search in the directory's bytes alone, whatever they are: what the medium, the cache
    and the chain contribute, and what happens where a directory has no end marker. */
module FatSearch {
  import opened Words
  import opened BlockCache
  import opened FatVolume
  import opened FatRead
  import opened FatSeek
  import opened FatDirectory
  import opened FatFind

  /** How a search in some entries ends; `RanOut` when it wants more of them. */
  datatype Search = Found(entry: DirEntry) | Absent | RanOut(hasLFN: bool, ucs: seq<nat>)

  /** The search in a sequence of raw entries, without medium, cache or chain. */
  function SearchIn(es: seq<RawEntry>, name: seq<nat>, hasLFN: bool, ucs: seq<nat>): Search
    decreases |es|
  {
    if es == [] then RanOut(hasLFN, ucs)
    else
      var s := FatDirectory.Step(es[0], DEFAULT_FLAGS, hasLFN, Some(ucs));
      if s.Deliver? then
        if Holds(s.ucs.value, name) then Found(s.entry) else SearchIn(es[1..], name, false, s.ucs.value)
      else if es[0][0] == 0 then Absent
      else SearchIn(es[1..], name, s.hasLFN, s.ucs.value)
  }

  /** An end marker among the entries ends every search. */
  lemma {:induction false} MarkerEndsSearch(es: seq<RawEntry>, name: seq<nat>, hasLFN: bool, ucs: seq<nat>, j: nat)
    requires j < |es| && es[j][0] == 0
    ensures !SearchIn(es, name, hasLFN, ucs).RanOut?
    decreases |es|
  {
    hide Holds, Collect, GenerateLfn, Decode;
    if j > 0 {
      var s := FatDirectory.Step(es[0], DEFAULT_FLAGS, hasLFN, Some(ucs));
      assert es[1..][j - 1] == es[j];
      MarkerEndsSearch(es[1..], name, if s.Deliver? then false else s.hasLFN, s.ucs.value, j - 1);
    }
  }

  /** The directory's entries from `off` on. */
  ghost function EntriesFrom(v: Volume, card: Card, f: File, off: nat, n: nat): (es: seq<RawEntry>)
    requires WellFormed(v, card, f) && off + ENTRY_LEN * n <= f.length
    ensures |es| == n
    decreases n
  {
    if n == 0 then [] else [EntryAt(v, card, f, off)] + EntriesFrom(v, card, f, off + ENTRY_LEN, n - 1)
  }

  lemma {:induction false} EntriesFromAt(v: Volume, card: Card, f: File, off: nat, n: nat, j: nat)
    requires WellFormed(v, card, f) && off + ENTRY_LEN * n <= f.length && j < n
    ensures EntriesFrom(v, card, f, off, n)[j] == EntryAt(v, card, f, off + ENTRY_LEN * j)
    decreases n
  {
    hide WellFormed, Bytes;
    if j > 0 {
      EntriesFromAt(v, card, f, off + ENTRY_LEN, n - 1, j - 1);
      assert off + ENTRY_LEN + ENTRY_LEN * (j - 1) == off + ENTRY_LEN * j;
    }
  }

  // ----- files apart -------------------------------------------------------------------------

  /** Two objects that share no cluster. */
  ghost predicate Apart(f: File, g: File) {
    forall i, j :: 0 <= i < |f.chain| && 0 <= j < |g.chain| ==> f.chain[i] != g.chain[j]
  }

  lemma BlocksOfApart(v: Volume, card: Card, f: File, g: File, x: nat, y: nat)
    requires WellFormed(v, card, f) && WellFormed(v, card, g) && Apart(f, g)
    requires v.ClusterOf(x) < |f.chain| && v.ClusterOf(y) < |g.chain|
    ensures DataBlock(v, f, x) != DataBlock(v, g, y) && DataBlock(v, g, y) >= v.heapStart
  {
    hide WellFormed, Quot, DataBlock, Volume.HeapBlock, Volume.BlksPerCluster;
    var a, b := f.chain[v.ClusterOf(x)], g.chain[v.ClusterOf(y)];
    DataBlockRange(v, card, f, x);
    DataBlockRange(v, card, g, y);
    assert a != b;
    if a < b {
      ClustersApart(v, a, b);
    } else {
      ClustersApart(v, b, a);
    }
  }

  lemma EnsureKeepsUncached(v: Volume, card: Card, c: Cache, g: File, block: nat)
    requires c.Valid() && Uncached(v, c, g, 0) && forall x: nat :: x < g.length ==> !IsDataBlock(v, g, x, block)
    ensures Uncached(v, Ensure(c, card, block).cache, g, 0)
  {
    hide IsDataBlock;
  }

  /** A trip through one object brings no block of another into the cache. */
  lemma TripKeepsUncached(v: Volume, card: Card, c: Cache, f: File, p: Pos, len: nat, g: File)
    requires WellFormed(v, card, f) && Acyclic(v, f) && PosOk(v, f, p) && InFile(f, p, len) && p.offset < p.length && len > 0
    requires c.Valid() && c.Agrees(card) && WellFormed(v, card, g) && Apart(f, g) && Uncached(v, c, g, 0)
    ensures Uncached(v, ReadStep(v, card, c, p, len).cache, g, 0)
  {
    hide WellFormed, PosOk, Acyclic, ClusterOk, Quot, Rem, Ensure, ReadStep, Chunk, Crosses, DataBlock, Uncached, Apart,
         Volume.BlockNumber;
    CurrentCluster(v, card, f, p);
    StepCopies(v, card, c, f, p, len);
    StepCache(v, card, c, p, len);
    FatBelowHeap(v, f, v.ClusterOf(p.offset));
    var block, fat := DataBlock(v, f, p.offset), v.FatBlock(p.currCluster);
    FatBlockOk(v, card, p.currCluster);
    forall x: nat | x < g.length
      ensures !IsDataBlock(v, g, x, block) && !IsDataBlock(v, g, x, fat)
    {
      if v.ClusterOf(x) < |g.chain| {
        BlocksOfApart(v, card, f, g, p.offset, x);
      }
    }
    EnsureKeepsUncached(v, card, c, g, block);
    EnsureKeepsUncached(v, card, Ensure(c, card, block).cache, g, fat);
  }

  lemma {:induction false} ReadKeepsUncached(v: Volume, card: Card, c: Cache, f: File, p: Pos, len: nat, g: File)
    requires WellFormed(v, card, f) && Acyclic(v, f) && PosOk(v, f, p) && InFile(f, p, len)
    requires c.Valid() && c.Agrees(card) && WellFormed(v, card, g) && Apart(f, g) && Uncached(v, c, g, 0)
    ensures Uncached(v, Read(v, card, c, p, len).cache, g, 0)
    decreases len
  {
    hide WellFormed, Acyclic, PosOk, Apart, Uncached, Read, Harmless, ReadStep, HarmlessTrip, Chunk;
    if len == 0 || p.offset >= p.length {
      ReadEnds(v, card, c, p, len);
    } else {
      var s := ReadStep(v, card, c, p, len);
      TripKeepsUncached(v, card, c, f, p, len, g);
      StepExactlyWhenHarmless(v, card, c, f, p, len);
      ReadUnfolds(v, card, c, p, len, s);
      ReadKeepsUncached(v, card, s.cache, f, s.pos, len - |s.bytes|, g);
    }
  }

  // ----- the end of the chain ----------------------------------------------------------------

  /** A directory that fills its last cluster, under a handle that allows more. */
  ghost predicate Full(v: Volume, card: Card, f: File, length: nat) {
    && f.length < length && f.chain != [] && v.Within(f.length) == 0 && v.ClusterOf(f.length) == |f.chain|
    && Terminated(v, card, f)
  }

  lemma TripReachesEnd(v: Volume, card: Card, c: Cache, f: File, p: Pos, len: nat)
    requires WellFormed(v, card, f) && PosOk(v, f, p) && InFile(f, p, len) && p.offset < p.length && len > 0
    requires c.Valid() && c.Agrees(card) && Full(v, card, f, p.length) && p.offset + Chunk(p, len) == f.length
    ensures var s := ReadStep(v, card, c, p, len);
            s.Copied? && EndOfChain(s.pos.currCluster)
  {
    hide WellFormed, PosOk, ClusterOk, Quot, Rem, DataBlock, ReadStep, Link, EndOfChain, Chunk;
    CurrentCluster(v, card, f, p);
    ChunkEnd(v, p.offset, Chunk(p, len));
    StepLink(v, card, c, f, p, len);
  }

  /** A read that uses up such a directory takes its end-of-chain marker for the next cluster. */
  lemma {:induction false} ReadReachesEnd(v: Volume, card: Card, c: Cache, f: File, p: Pos, len: nat)
    requires WellFormed(v, card, f) && PosOk(v, f, p) && len > 0 && p.offset + len == f.length
    requires c.Valid() && c.Agrees(card) && Full(v, card, f, p.length)
    ensures EndOfChain(Read(v, card, c, p, len).pos.currCluster)
    decreases len
  {
    hide WellFormed, PosOk, Full, Read, Harmless, ReadStep, HarmlessTrip, Chunk, EndOfChain;
    assert f.length < p.length by { FullLength(v, card, f, p.length); }
    var s, k := ReadStep(v, card, c, p, len), Chunk(p, len);
    StepExactlyWhenHarmless(v, card, c, f, p, len);
    ReadUnfolds(v, card, c, p, len, s);
    if k == len {
      TripReachesEnd(v, card, c, f, p, len);
      ReadEnds(v, card, s.cache, s.pos, 0);
    } else {
      ReadReachesEnd(v, card, s.cache, f, s.pos, len - k);
    }
  }

  lemma FullLength(v: Volume, card: Card, f: File, length: nat)
    requires Full(v, card, f, length)
    ensures f.length < length
  {
  }

  // ----- the refinement ----------------------------------------------------------------------

  /** What a search on the medium does, against the search in the entries alone: `c'` and `p'` are where
      it ends, or where it goes on when the entries run out. */
  ghost predicate Searched(
    v: Volume, card: Card, c: Cache, p: Pos, es: seq<RawEntry>, name: seq<nat>, hasLFN: bool, ucs: seq<nat>, c': Cache, p': Pos)
    requires c.Valid() && c'.Valid() && p.offset <= p.length && p'.offset <= p'.length
  {
    var r := Find(v, card, c, p, name, hasLFN, ucs);
    var s := SearchIn(es, name, hasLFN, ucs);
    if s.RanOut? then
      var rest := Find(v, card, c', p', name, s.hasLFN, s.ucs);
      r.entry == rest.entry && r.cache == rest.cache && r.pos == rest.pos
    else r.entry == (if s.Found? then Some(s.entry) else None) && r.cache == c' && r.pos == p'
  }

  lemma SearchUnfolds(v: Volume, card: Card, c: Cache, p: Pos, e: RawEntry, name: seq<nat>, hasLFN: bool, ucs: seq<nat>,
                      c': Cache, p': Pos)
    requires c.Valid() && c'.Valid() && p.offset <= p.length && p'.offset <= p'.length
    requires var next := Next(v, card, c, p, DEFAULT_FLAGS, hasLFN, Some(ucs));
             match FatDirectory.Step(e, DEFAULT_FLAGS, hasLFN, Some(ucs))
             case Deliver(d, ucs') => next == DirResult(c', p', ucs', Some(d), 1)
             case Skip(lfn, ucs') =>
               if e[0] == 0 then next == DirResult(c', p', ucs', None, 1)
               else
                 var rest := Next(v, card, c', p', DEFAULT_FLAGS, lfn, ucs');
                 next == rest.(entries := rest.entries + 1)
    ensures var s := FatDirectory.Step(e, DEFAULT_FLAGS, hasLFN, Some(ucs));
            var r := Find(v, card, c, p, name, hasLFN, ucs);
            if s.Deliver? && Holds(s.ucs.value, name) then r.entry == Some(s.entry) && r.cache == c' && r.pos == p'
            else if s.Skip? && e[0] == 0 then r.entry == None && r.cache == c' && r.pos == p'
            else
              var rest := Find(v, card, c', p', name, if s.Deliver? then false else s.hasLFN, s.ucs.value);
              r.entry == rest.entry && r.cache == rest.cache && r.pos == rest.pos
  {
    hide Next, FatDirectory.Step, Holds;
  }

  /** For every directory content: the search on the medium is the search in the directory's bytes, as
      long as no trip is stale, and brings no block of an object apart from it into the cache. */
  lemma {:induction false} SearchIsInBytes(
    v: Volume, card: Card, c: Cache, f: File, p: Pos, n: nat, name: seq<nat>, hasLFN: bool, ucs: seq<nat>, g: File)
    returns (c': Cache, p': Pos)
    requires WellFormed(v, card, f) && Acyclic(v, f) && PosOk(v, f, p) && p.offset + ENTRY_LEN * n <= f.length
    requires c.Valid() && c.Agrees(card) && Steady(v, card, c, p, n)
    requires WellFormed(v, card, g) && Apart(f, g) && Uncached(v, c, g, 0)
    ensures p.offset <= p.length && p'.offset <= p'.length && c'.Valid() && c'.Agrees(card) && Uncached(v, c', g, 0)
    ensures Searched(v, card, c, p, EntriesFrom(v, card, f, p.offset, n), name, hasLFN, ucs, c', p')
    ensures PosOk(v, f, p') && p'.offset <= p.offset + ENTRY_LEN * n
    ensures n == 0 ==> c' == c && p' == p
    ensures SearchIn(EntriesFrom(v, card, f, p.offset, n), name, hasLFN, ucs).RanOut? ==>
              && p'.offset == p.offset + ENTRY_LEN * n && p'.length == p.length
              && (n > 0 && Full(v, card, f, p.length) && p'.offset == f.length ==> EndOfChain(p'.currCluster))
    decreases n
  {
    hide WellFormed, Acyclic, PosOk, Apart, Uncached, Steady, Next, FatDirectory.Step, Bytes, Holds, Find, Read, Full, EndOfChain;
    PosBounds(v, f, p);
    var es := EntriesFrom(v, card, f, p.offset, n);
    if n == 0 {
      c', p' := c, p;
    } else {
      var e := EntryAt(v, card, f, p.offset);
      var r := NextUnfolds(v, card, c, f, p, n, hasLFN, ucs);
      ReadKeepsUncached(v, card, c, f, p, ENTRY_LEN, g);
      if Full(v, card, f, p.length) && p.offset + ENTRY_LEN == f.length {
        ReadReachesEnd(v, card, c, f, p, ENTRY_LEN);
      }
      SearchUnfolds(v, card, c, p, e, name, hasLFN, ucs, r.cache, r.pos);
      var s := FatDirectory.Step(e, DEFAULT_FLAGS, hasLFN, Some(ucs));
      assert es[1..] == EntriesFrom(v, card, f, p.offset + ENTRY_LEN, n - 1);
      if (s.Deliver? && Holds(s.ucs.value, name)) || (s.Skip? && e[0] == 0) {
        c', p' := r.cache, r.pos;
      } else {
        c', p' := SearchIsInBytes(v, card, r.cache, f, r.pos, n - 1, name, if s.Deliver? then false else s.hasLFN,
                                  s.ucs.value, g);
      }
    }
  }

  /** Nothing is found where the next block is refused. */
  lemma RefusalEndsSearch(v: Volume, card: Card, c: Cache, p: Pos, name: seq<nat>, hasLFN: bool, ucs: seq<nat>)
    requires c.Valid() && p.offset < p.length
    requires var block := v.BlockNumber(p.currCluster, v.Within(p.offset));
             !card(block).ok && !c.Holds(block)
    ensures Find(v, card, c, p, name, hasLFN, ucs).entry == None
  {
    hide Volume.BlockNumber, Volume.Within, Chunk, Crosses, Holds;
    assert ReadStep(v, card, c, p, ENTRY_LEN).Stopped?;
    assert Read(v, card, c, p, ENTRY_LEN).bytes == [];
  }

  /** A directory without an end marker that fills its last cluster: the search is decided by its entries,
      or goes on in whatever block the end-of-chain marker, taken for a cluster number, leads to; it
      then finds nothing if the medium refuses that block. */
  lemma SearchInFullDirectory(
    v: Volume, card: Card, c: Cache, f: File, p: Pos, n: nat, name: seq<nat>, hasLFN: bool, ucs: seq<nat>)
    returns (c': Cache, p': Pos)
    requires WellFormed(v, card, f) && Acyclic(v, f) && PosOk(v, f, p) && p.offset + ENTRY_LEN * n == f.length && n > 0
    requires c.Valid() && c.Agrees(card) && Steady(v, card, c, p, n) && Full(v, card, f, p.length)
    ensures p.offset <= p.length && p'.offset <= p'.length && c'.Valid()
    ensures var s := SearchIn(EntriesFrom(v, card, f, p.offset, n), name, hasLFN, ucs);
            var entry := Find(v, card, c, p, name, hasLFN, ucs).entry;
            if !s.RanOut? then entry == (if s.Found? then Some(s.entry) else None)
            else
              var block := v.BlockNumber(p'.currCluster, v.Within(p'.offset));
              && p'.offset == f.length && EndOfChain(p'.currCluster)
              && entry == Find(v, card, c', p', name, s.hasLFN, s.ucs).entry
              && (!card(block).ok && !c'.Holds(block) ==> entry == None)
  {
    hide WellFormed, Acyclic, PosOk, Steady, Full, Find, SearchIn, EntriesFrom, Uncached, Apart, EndOfChain, Volume.BlockNumber,
         Volume.Within;
    var nothing := File([], 0);
    NothingIsApart(v, card, c, f, nothing);
    c', p' := SearchIsInBytes(v, card, c, f, p, n, name, hasLFN, ucs, nothing);
    FullLength(v, card, f, p.length);
    var s := SearchIn(EntriesFrom(v, card, f, p.offset, n), name, hasLFN, ucs);
    if s.RanOut? {
      var block := v.BlockNumber(p'.currCluster, v.Within(p'.offset));
      if !card(block).ok && !c'.Holds(block) {
        RefusalEndsSearch(v, card, c', p', name, s.hasLFN, s.ucs);
      }
    }
  }

  lemma NothingIsApart(v: Volume, card: Card, c: Cache, f: File, nothing: File)
    requires c.Valid() && nothing == File([], 0)
    ensures WellFormed(v, card, nothing) && Apart(f, nothing) && Uncached(v, c, nothing, 0)
  {
  }
}
