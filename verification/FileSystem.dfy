/** `fileSysUtils` as it runs: the block cache, open objects and caller's buffers updated in place,
    proved against the functions on values. */
module FileSystem {
  import opened Words
  import opened BlockCache
  import opened FatVolume
  import opened FatRead
  import opened FatSeek
  import opened FatDirectory
  import opened FatFind
  import opened FatNames
  import opened BlockMedium

  /** An open file or directory. */
  class ObjState {
    var offset: nat
    var length: nat
    var currCluster: nat
    var firstCluster: nat

    ghost function Position(): Pos
      reads this
    {
      Pos(offset, length, currCluster, firstCluster)
    }

    /** As `file_open` leaves it; `dir_open` passes the largest length. */
    constructor (cluster: nat, length: nat)
      ensures Position() == Pos(0, length, cluster, cluster)
    {
      this.offset, this.length, this.currCluster, this.firstCluster := 0, length, cluster, cluster;
    }
  }

  class FileSys {
    const sd: Medium
    const volume: Volume
    const blockCache: array<Entry>
    var blockCacheNext: nat

    ghost predicate Valid()
      reads this, blockCache
    {
      blockCache.Length == CACHE_ENTRIES && blockCacheNext < CACHE_ENTRIES
    }

    ghost function Cached(): (c: Cache)
      requires Valid()
      reads this, blockCache
      ensures c.Valid()
    {
      Cache(blockCache[..], blockCacheNext)
    }

    constructor (sd: Medium, volume: Volume)
      ensures Valid() && fresh(blockCache) && this.sd == sd && this.volume == volume
      ensures Empty(Cached())
    {
      this.sd, this.volume := sd, volume;
      blockCache := new Entry[CACHE_ENTRIES](_ => UnusedEntry());
      blockCacheNext := 0;
    }

    /** `fin`: forget all cached blocks. */
    method Fin()
      requires Valid()
      modifies this, blockCache
      ensures Valid() && Empty(Cached())
    {
      var idx := 0;
      while idx < CACHE_ENTRIES
        invariant 0 <= idx <= CACHE_ENTRIES
        invariant forall i :: 0 <= i < idx ==> blockCache[i].block == INVALID_BLOCK
      {
        blockCache[idx] := blockCache[idx].(block := INVALID_BLOCK);
        idx := idx + 1;
      }
      blockCacheNext := 0;
    }

    /** `block_ensure`; `card` is what the medium gives. */
    method BlockEnsure(ghost card: Card, block: nat) returns (idx: int)
      requires Valid() && sd.Gives(card) && block < TWO32
      modifies this, blockCache, sd.Objects()
      ensures Valid() && sd.Gives(card)
      ensures var r := Ensure(old(Cached()), card, block);
              Cached() == r.cache && idx == (if r.idx.Some? then r.idx.value else -1)
    {
      hide Medium.Gives;
      idx := 0;
      while idx < CACHE_ENTRIES
        invariant 0 <= idx <= CACHE_ENTRIES
        invariant forall i :: 0 <= i < idx ==> blockCache[i].block != block
      {
        if block == blockCache[idx].block {
          return;
        }
        idx := idx + 1;
      }
      idx := blockCacheNext;
      var buf := new byte[BLOCK_LEN];
      var ok := sd.ReadBlock(card, block, buf);
      blockCache[idx] := blockCache[idx].(data := buf[..]);
      if ok {
        blockCache[idx] := blockCache[idx].(block := block);
        blockCacheNext := blockCacheNext + 1;
        if blockCacheNext >= CACHE_ENTRIES {
          blockCacheNext := 0;
        }
        return;
      }
      idx := -1;
    }

    method ClusterNextOf(ghost card: Card, cluster: nat) returns (ok: bool, nextCluster: nat)
      requires Valid() && sd.Gives(card)
      modifies this, blockCache, sd.Objects()
      ensures Valid() && sd.Gives(card)
      ensures var w := ClusterNext(volume, card, old(Cached()), cluster);
              Cached() == w.cache && ok == w.next.Some? && (ok ==> nextCluster == w.next.value)
    {
      nextCluster := 0;
      var idx := BlockEnsure(card, volume.FatBlock(cluster));
      if idx < 0 {
        ok := false;
        return;
      }
      nextCluster := Link(blockCache[idx].data, cluster);
      ok := true;
    }

    /** `object_seek`: what it does to the position is `Seek`; a failed seek changes nothing there. */
    method ObjectSeek(ghost card: Card, obj: ObjState, offset: nat) returns (ok: bool)
      requires Valid() && sd.Gives(card)
      modifies this, blockCache, obj, sd.Objects()
      ensures Valid() && sd.Gives(card)
      ensures var r := Seek(volume, card, old(Cached()), old(obj.Position()), offset);
              Cached() == r.cache && obj.Position() == r.pos && ok == r.ok
    {
      hide Quot, Rem, ClusterNext, Volume.ClusterBytes, Medium.Gives;
      if offset > obj.length {
        return false;
      }
      var currCluster := obj.currCluster;
      var currOffset := obj.offset - volume.Within(obj.offset);
      if offset < currOffset {
        currCluster := obj.firstCluster;
        currOffset := 0;
      }
      ghost var goal := Scan(volume, card, Cached(), currCluster, currOffset, offset);
      while offset - currOffset >= volume.ClusterBytes()
        invariant Valid() && sd.Gives(card) && currOffset <= offset
        invariant obj.Position() == old(obj.Position())
        invariant Scan(volume, card, Cached(), currCluster, currOffset, offset) == goal
        decreases offset - currOffset
      {
        var got, nextCluster := ClusterNextOf(card, currCluster);
        if !got {
          return false;
        }
        currCluster := nextCluster;
        currOffset := currOffset + volume.ClusterBytes();
      }
      obj.currCluster := currCluster;
      obj.offset := offset;
      ok := true;
    }

    /** One trip of the loop in `object_read`; the copy goes through entry `idx` as it is by then. */
    method ReadChunk(ghost card: Card, obj: ObjState, buf: array<byte>, at: nat, len: nat) returns (ok: bool, n: nat)
      requires Valid() && sd.Gives(card) && 0 < len && at + len <= buf.Length && obj.offset < obj.length && buf as object != blockCache
      modifies this, blockCache, obj, buf, sd.Objects()
      ensures Valid() && sd.Gives(card)
      ensures var s := ReadStep(volume, card, old(Cached()), old(obj.Position()), len);
              if s.Stopped? then
                !ok && Cached() == s.cache && obj.Position() == old(obj.Position()) && buf[..] == old(buf[..])
              else
                && ok && Cached() == s.cache && obj.Position() == s.pos && n == |s.bytes| <= len
                && buf[..] == Patched(old(buf[..]), at, s.bytes)
    {
      hide Ensure, ClusterNext, Volume.BlockNumber, Volume.Within, Chunk, Crosses, Patched, Medium.Gives;
      n := 0;
      var idx := BlockEnsure(card, volume.BlockNumber(obj.currCluster, volume.Within(obj.offset)));
      if idx < 0 {
        return false, 0;
      }
      var blockOffset := obj.offset % BLOCK_LEN;
      n := BytesAvailable(obj, len);
      ok := MoveOn(card, obj, len, n);
      if !ok {
        return;
      }
      CopyBytes(buf, at, blockCache[idx].data, blockOffset, n);
    }

    /** How much of the request the current block and the object can meet. */
    method BytesAvailable(obj: ObjState, len: nat) returns (n: nat)
      requires 0 < len && obj.offset < obj.length
      ensures n == Chunk(obj.Position(), len)
    {
      var blockBytesLeft := BLOCK_LEN - obj.offset % BLOCK_LEN;
      var objBytesLeft := obj.length - obj.offset;
      var bytesAvail := if objBytesLeft > blockBytesLeft then blockBytesLeft else objBytesLeft;
      n := if len > bytesAvail then bytesAvail else len;
    }

    /** Moves past a chunk, into the next cluster when it ends this one. */
    method MoveOn(ghost card: Card, obj: ObjState, len: nat, n: nat) returns (ok: bool)
      requires Valid() && sd.Gives(card) && 0 < len && obj.offset < obj.length && n == Chunk(obj.Position(), len)
      modifies this, blockCache, obj, sd.Objects()
      ensures Valid() && sd.Gives(card)
      ensures var p, w := old(obj.Position()), ClusterNext(volume, card, old(Cached()), old(obj.currCluster));
              if !Crosses(volume, p, len) then ok && Cached() == old(Cached()) && obj.Position() == p.(offset := p.offset + n)
              else if w.next.None? then !ok && Cached() == w.cache && obj.Position() == p
              else ok && Cached() == w.cache && obj.Position() == p.(offset := p.offset + n, currCluster := w.next.value)
    {
      hide ClusterNext, Volume.Within, Chunk, Medium.Gives;
      var nextOffset := obj.offset + n;
      if volume.Within(nextOffset) == 0 && obj.length > nextOffset {
        var got, nextCluster := ClusterNextOf(card, obj.currCluster);
        if !got {
          return false;
        }
        obj.currCluster := nextCluster;
      }
      obj.offset := nextOffset;
      ok := true;
    }

    /** `object_read`: the bytes land at the front of `buf`, and nothing else of it changes. */
    method ObjectRead(ghost card: Card, obj: ObjState, buf: array<byte>, len: nat) returns (bytesRead: nat)
      requires Valid() && sd.Gives(card) && len <= buf.Length && buf as object != blockCache
      modifies this, blockCache, obj, buf, sd.Objects()
      ensures Valid() && sd.Gives(card)
      ensures var r := Read(volume, card, old(Cached()), old(obj.Position()), len);
              && Cached() == r.cache && obj.Position() == r.pos
              && bytesRead == |r.bytes| <= len && buf[..] == r.bytes + old(buf[bytesRead..])
    {
      hide Read, ReadStep, Chunk, ReadDone, Landed, Patched, Medium.Gives;
      bytesRead := 0;
      var left: nat := len;
      ghost var done: seq<byte>, was := [], buf[..];
      ghost var goal := Read(volume, card, Cached(), obj.Position(), len);
      NothingRead(goal, was);
      while left > 0 && obj.offset < obj.length
        invariant Valid() && sd.Gives(card) && bytesRead + left == len && |done| == bytesRead
        invariant ReadDone(goal, done, Read(volume, card, Cached(), obj.Position(), left))
        invariant Landed(buf[..], done, was)
        decreases left
      {
        ghost var here, p, before := Cached(), obj.Position(), buf[..];
        ghost var step := ReadStep(volume, card, here, p, left);
        var ok, n := ReadChunk(card, obj, buf, bytesRead, left);
        if !ok {
          ReadStops(volume, card, here, p, left, step);
          AllRead(goal, done, Read(volume, card, here, p, left), buf[..], was);
          return;
        }
        ReadTrip(volume, card, here, p, left, step, goal, done);
        Splice(before, done, was, step.bytes, buf[..]);
        done := done + step.bytes;
        left := left - n;
        bytesRead := bytesRead + n;
      }
      ReadEnds(volume, card, Cached(), obj.Position(), left);
      AllRead(goal, done, Read(volume, card, Cached(), obj.Position(), left), buf[..], was);
    }

    /** `file_clusters` on a valid handle: the list goes to `out`. */
    method ListClusters(ghost card: Card, obj: ObjState, out: array<nat>) returns (n: nat)
      requires Valid() && sd.Gives(card) && out as object != blockCache
      modifies this, blockCache, obj, out, sd.Objects()
      ensures Valid() && sd.Gives(card)
      ensures var r := FatSeek.FileClusters(volume, card, old(Cached()), old(obj.Position()), out.Length);
              Cached() == r.cache && obj.Position() == r.pos && n == |r.clusters| && out[..n] == r.clusters
    {
      hide List, Quot, Rem, ClusterNext, EndOfChain, Medium.Gives;
      var cluster: nat := obj.currCluster;
      var offset: nat := obj.offset - volume.Within(obj.offset);
      n := 0;
      ghost var done: seq<nat> := [];
      ghost var goal := List(volume, card, Cached(), obj.Position(), cluster, offset, out.Length);
      assert [] + goal.clusters == goal.clusters;
      while n < out.Length && !EndOfChain(cluster)
        invariant Valid() && sd.Gives(card) && n <= out.Length && out[..n] == done
        invariant ListDone(goal, done, List(volume, card, Cached(), obj.Position(), cluster, offset, out.Length - n))
      {
        ghost var w := ClusterNext(volume, card, Cached(), cluster);
        ListTrip(volume, card, Cached(), obj.Position(), cluster, offset, out.Length - n, goal, done);
        out[n] := cluster;
        n := n + 1;
        done := done + [cluster];
        var got, nextCluster := ClusterNextOf(card, cluster);
        if !got {
          return;
        }
        offset := (offset + volume.ClusterBytes()) % TWO32;
        obj.offset := offset;
        obj.currCluster := cluster;
        cluster := nextCluster;
      }
      ListEnds(volume, card, Cached(), obj.Position(), cluster, offset, out.Length - n);
    }

    /** `dir_next` on a valid handle: the entry, and the name in `ucs` when there is a buffer. */
    method DirNext(ghost card: Card, obj: ObjState, flags: DirFlags, ucs: array?<nat>) returns (entry: Option<DirEntry>)
      requires Valid() && sd.Gives(card) && obj.offset <= obj.length && ucs as object? != blockCache
      modifies this, blockCache, obj, ucs, sd.Objects()
      ensures Valid() && sd.Gives(card)
      ensures var r := Next(volume, card, old(Cached()), old(obj.Position()), flags, false, old(NameIn(ucs)));
              Cached() == r.cache && obj.Position() == r.pos && NameIn(ucs) == r.ucs && entry == r.entry
    {
      hide Next, FatDirectory.Step, Read, Medium.Gives, Volume.ClusterBytes;
      var hasLFN := false;
      var dirEntry := new byte[ENTRY_LEN];
      ghost var goal := Next(volume, card, Cached(), obj.Position(), flags, false, NameIn(ucs));
      while true
        invariant Valid() && sd.Gives(card) && obj.offset <= obj.length && fresh(dirEntry) && dirEntry.Length == ENTRY_LEN
        invariant SameOutcome(goal, Next(volume, card, Cached(), obj.Position(), flags, hasLFN, NameIn(ucs)))
        decreases obj.length - obj.offset
      {
        NextTrip(volume, card, Cached(), obj.Position(), flags, hasLFN, NameIn(ucs));
        var n := ObjectRead(card, obj, dirEntry, ENTRY_LEN);
        if n != ENTRY_LEN {
          return None;
        }
        var e: RawEntry := dirEntry[..];
        assert dirEntry[..n] == e;
        entry, hasLFN := TakeEntry(e, flags, hasLFN, ucs);
        if entry.Some? {
          return;
        }
        if e[0] == 0 {
          return None;
        }
      }
    }

    /** `dir_find` on a valid handle, as long as no comparison leaves the name buffer. */
    method DirFind(ghost card: Card, obj: ObjState, ucs: array<nat>, name: seq<nat>) returns (entry: Option<DirEntry>)
      requires Valid() && sd.Gives(card) && obj.offset <= obj.length && ucs as object != blockCache
      requires ucs.Length < TWO32 - 1 && IsSearchName(name)
      requires StaysInside(volume, card, Cached(), obj.Position(), name, false, ucs[..])
      modifies this, blockCache, obj, ucs, sd.Objects()
      ensures Valid() && sd.Gives(card)
      ensures var r := Find(volume, card, old(Cached()), old(obj.Position()), name, false, old(ucs[..]));
              Cached() == r.cache && obj.Position() == r.pos && ucs[..] == r.ucs.value && entry == r.entry
    {
      hide Next, Medium.Gives, ReadsPast, Holds;
      ghost var goal := Find(volume, card, Cached(), obj.Position(), name, false, ucs[..]);
      while true
        invariant Valid() && sd.Gives(card) && obj.offset <= obj.length
        invariant goal == Find(volume, card, Cached(), obj.Position(), name, false, ucs[..])
        invariant StaysInside(volume, card, Cached(), obj.Position(), name, false, ucs[..])
        decreases obj.length - obj.offset
      {
        entry := DirNext(card, obj, DEFAULT_FLAGS, ucs);
        if entry.None? {
          return;
        }
        var diff := CompareNames(ucs, name, TWO32 - 1);
        if diff == 0 {
          return;
        }
      }
    }
  }

  /** `ucs2_compare`: zero exactly when the names agree up to a NUL or `len`. */
  method CompareNames(ucs: array<nat>, name: seq<nat>, len: nat) returns (r: int)
    requires IsSearchName(name) && !ReadsPast(ucs[..], name, len, 0)
    ensures r == 0 <==> AgreeUpTo(ucs[..], name, Min(len, |name| + 1))
    ensures len > |ucs[..]| ==> (r == 0 <==> Holds(ucs[..], name))
  {
    var i, left := 0, len;
    while left > 0
      invariant 0 <= left && i + left == len && 0 <= i <= |name| && i <= ucs.Length && !ReadsPast(ucs[..], name, len, i)
      invariant forall k :: 0 <= k < i ==> ucs[k] == name[k]
    {
      var c2, c1 := CharOf(name, i), ucs[i];
      if c1 == 0 || c1 != c2 {
        r := c1 as int - c2 as int;
        assert r == 0 ==> i == |name|;
        assert r != 0 ==> ucs[..][i] != CharOf(name, i);
        return;
      }
      i, left := i + 1, left - 1;
    }
    r := 0;
    assert i == len && forall k: nat :: k < i ==> ucs[..][k] == CharOf(name, k);
  }

  /** What `dir_next` does with one entry: collect a part of a long name, reject the entry, or return
      it, with a generated name when it has no long one. */
  method TakeEntry(e: RawEntry, flags: DirFlags, hasLFN: bool, ucs: array?<nat>)
    returns (entry: Option<DirEntry>, lfn: bool)
    modifies ucs
    ensures var s := FatDirectory.Step(e, flags, hasLFN, old(NameIn(ucs)));
            && NameIn(ucs) == s.ucs
            && (if s.Skip? then entry.None? && lfn == s.hasLFN else entry == Some(s.entry))
  {
    hide Collect, GenerateLfn;
    var entryType, attribs := e[0], e[0xb];
    var deleted, volumeLabel, subdirectory := entryType == 0xe5, attribs as int / 8 % 2 == 1, attribs as int / 0x10 % 2 == 1;
    if !flags.raw {
      if attribs == 0x0f {
        if ucs != null {
          CollectInto(ucs, e);
        }
        return None, true;
      }
      if entryType == 0 || entryType == 0x2e || (deleted && !flags.includeDeleted) || volumeLabel {
        return None, false;
      }
    }
    var shortName := e[..8];
    if deleted {
      shortName := shortName[0 := e[0xd]];
    }
    if shortName[0] == 0x05 {
      shortName := shortName[0 := 0xe5];
    }
    if ucs != null && !hasLFN {
      GenerateInto(ucs, shortName, e[8..11]);
    }
    var cluster := e[0x1a] as int + 0x100 * e[0x1b] as int + 0x1_0000 * e[0x14] as int + 0x100_0000 * (e[0x15] as int % 0x10);
    var length := e[0x1c] as int + 0x100 * e[0x1d] as int + 0x1_0000 * e[0x1e] as int + 0x100_0000 * e[0x1f] as int;
    DecodedNumbers(e, hasLFN);
    entry := Some(DirEntry(deleted, volumeLabel, subdirectory, hasLFN, entryType, shortName, e[8..11], attribs, cluster, length));
    lfn := hasLFN;
  }

  /** Equal but for the count of entries. */
  ghost predicate SameOutcome(r: DirResult, s: DirResult) {
    r == s.(entries := r.entries)
  }

  lemma NextTrip(v: Volume, card: Card, c: Cache, p: Pos, flags: DirFlags, hasLFN: bool, ucs: Option<seq<nat>>)
    requires c.Valid() && p.offset <= p.length
    ensures var n, r := Next(v, card, c, p, flags, hasLFN, ucs), Read(v, card, c, p, ENTRY_LEN);
            if |r.bytes| != ENTRY_LEN then n == DirResult(r.cache, r.pos, ucs, None, 0)
            else
              var s := FatDirectory.Step(r.bytes, flags, hasLFN, ucs);
              if s.Deliver? then n == DirResult(r.cache, r.pos, s.ucs, Some(s.entry), 1)
              else if r.bytes[0] == 0 then n == DirResult(r.cache, r.pos, s.ucs, None, 1)
              else SameOutcome(n, Next(v, card, r.cache, r.pos, flags, s.hasLFN, s.ucs))
  {
    hide Read, FatDirectory.Step;
  }

  ghost function NameIn(ucs: array?<nat>): Option<seq<nat>>
    reads ucs
  {
    if ucs == null then None else Some(ucs[..])
  }

  // ----- loop invariants ---------------------------------------------------------------------

  /** `done` bytes are delivered and `rest` is what the remaining trips will do. */
  ghost predicate ReadDone(goal: ReadResult, done: seq<byte>, rest: ReadResult) {
    goal == ReadResult(rest.cache, rest.pos, done + rest.bytes)
  }

  /** The bytes done are at the front of a buffer. */
  ghost predicate Landed(now: seq<byte>, done: seq<byte>, was: seq<byte>) {
    |done| <= |was| && now == done + was[|done|..]
  }

  lemma NothingRead(goal: ReadResult, was: seq<byte>)
    ensures ReadDone(goal, [], goal) && Landed(was, [], was)
  {
    assert [] + goal.bytes == goal.bytes;
  }

  /** Writing the next bytes after those already done. */
  lemma Splice(before: seq<byte>, done: seq<byte>, was: seq<byte>, next: seq<byte>, now: seq<byte>)
    requires Landed(before, done, was) && |done| + |next| <= |was|
    requires |before| == |was| && now == Patched(before, |done|, next)
    ensures Landed(now, done + next, was)
  {
    assert before[..|done|] == done;
    assert before[|done| + |next|..] == was[|done| + |next|..];
  }

  lemma AllRead(goal: ReadResult, done: seq<byte>, rest: ReadResult, now: seq<byte>, was: seq<byte>)
    requires ReadDone(goal, done, rest) && rest.bytes == [] && Landed(now, done, was)
    ensures goal == ReadResult(rest.cache, rest.pos, done) && now == done + was[|done|..] && |done| <= |was|
  {
    assert done + [] == done;
  }

  lemma ReadStops(v: Volume, card: Card, c: Cache, p: Pos, len: nat, s: Step)
    requires c.Valid() && len > 0 && p.offset < p.length
    requires s == ReadStep(v, card, c, p, len) && s.Stopped?
    ensures Read(v, card, c, p, len) == ReadResult(s.cache, p, [])
  {
    hide ReadStep;
  }

  lemma ReadTrip(v: Volume, card: Card, c: Cache, p: Pos, len: nat, s: Step, goal: ReadResult, done: seq<byte>)
    requires c.Valid() && len > 0 && p.offset < p.length
    requires s == ReadStep(v, card, c, p, len) && s.Copied?
    requires ReadDone(goal, done, Read(v, card, c, p, len))
    ensures ReadDone(goal, done + s.bytes, Read(v, card, s.cache, s.pos, len - |s.bytes|))
  {
    hide ReadStep, Chunk;
    var rest: ReadResult := Read(v, card, s.cache, s.pos, len - |s.bytes|);
    assert done + (s.bytes + rest.bytes) == done + s.bytes + rest.bytes;
  }

  ghost predicate ListDone(goal: Listed, done: seq<nat>, rest: Listed) {
    goal == Listed(rest.cache, rest.pos, done + rest.clusters)
  }

  lemma ListTrip(v: Volume, card: Card, c: Cache, p: Pos, cluster: nat, offset: nat, len: nat, goal: Listed, done: seq<nat>)
    requires c.Valid() && len > 0 && !EndOfChain(cluster)
    requires ListDone(goal, done, List(v, card, c, p, cluster, offset, len))
    ensures var w := ClusterNext(v, card, c, cluster);
            var next := (offset + v.ClusterBytes()) % TWO32;
            if w.next.None? then goal == Listed(w.cache, p, done + [cluster])
            else ListDone(goal, done + [cluster],
                          List(v, card, w.cache, p.(offset := next, currCluster := cluster), w.next.value, next, len - 1))
  {
    hide ClusterNext, EndOfChain;
    var w, next := ClusterNext(v, card, c, cluster), (offset + v.ClusterBytes()) % TWO32;
    if w.next.Some? {
      var r := List(v, card, w.cache, p.(offset := next, currCluster := cluster), w.next.value, next, len - 1);
      assert done + ([cluster] + r.clusters) == done + [cluster] + r.clusters;
    }
  }

  // ----- copying -----------------------------------------------------------------------------

  /** Some bytes of a buffer replaced. */
  ghost function Patched(was: seq<byte>, at: nat, bytes: seq<byte>): (r: seq<byte>)
    requires at + |bytes| <= |was|
    ensures |r| == |was|
  {
    was[..at] + bytes + was[at + |bytes|..]
  }

  /** `copy_bytes` into a caller's buffer. */
  method CopyBytes(dst: array<byte>, at: nat, src: seq<byte>, from: nat, len: nat)
    requires at + len <= dst.Length && from + len <= |src|
    modifies dst
    ensures dst[..] == Patched(old(dst[..]), at, src[from..from + len])
  {
    hide Patched;
    ghost var was := dst[..];
    PatchedNone(was, at);
    assert src[from..from] == [];
    var i := 0;
    while i < len
      invariant 0 <= i <= len && dst[..] == Patched(was, at, src[from..from + i])
    {
      PatchedMore(was, at, src[from..from + i], src[from + i]);
      assert src[from..from + i] + [src[from + i]] == src[from..from + (i + 1)];
      dst[at + i] := src[from + i];
      i := i + 1;
    }
  }

  lemma PatchedNone(was: seq<byte>, at: nat)
    requires at <= |was|
    ensures Patched(was, at, []) == was
  {
  }

  lemma PatchedMore(was: seq<byte>, at: nat, bytes: seq<byte>, b: byte)
    requires at + |bytes| < |was|
    ensures Patched(was, at, bytes)[at + |bytes| := b] == Patched(was, at, bytes + [b])
  {
  }

  /** The first `k` characters of the entry stand at `offset`, over what was there. */
  ghost predicate Filled(s: seq<nat>, was: seq<nat>, offset: nat, e: RawEntry, k: nat) {
    k <= 13 && offset + k <= |was| && s == was[..offset] + LfnChars(e, k) + was[offset + k..]
  }

  lemma FilledExtends(s: seq<nat>, was: seq<nat>, offset: nat, e: RawEntry, k: nat)
    requires Filled(s, was, offset, e, k) && k < 13 && offset + k < |was|
    ensures Filled(s[offset + k := LfnChar(e, k)], was, offset, e, k + 1)
  {
    hide LfnChar;
    assert LfnChars(e, k + 1) == LfnChars(e, k) + [LfnChar(e, k)];
  }

  /** The characters from `k` up to `end` stand from byte `from` on. */
  ghost predicate Run(from: nat, k: nat, end: nat) {
    end <= 13 && forall i :: k <= i < end ==> LFN_PLACES[i] == from + 2 * (i - k) < ENTRY_LEN - 1
  }

  lemma RunsAre(len: nat)
    requires len <= 13
    ensures Run(1, 0, if len >= 5 then 5 else len)
    ensures len > 5 ==> Run(0xe, 5, if len >= 11 then 11 else len)
    ensures len > 11 ==> Run(0x1c, 11, len)
  {
  }

  /** Copies one such run of a long-name entry. */
  method CopyChars(ucs: array<nat>, offset: nat, e: RawEntry, from: nat, k: nat, end: nat, ghost was: seq<nat>)
    requires k <= end <= 13 && offset + end <= |was| && Filled(ucs[..], was, offset, e, k)
    requires Run(from, k, end)
    modifies ucs
    ensures Filled(ucs[..], was, offset, e, end)
  {
    hide Filled, LfnChar;
    var i := k;
    assert |ucs[..]| == |was| by { FilledLength(ucs[..], was, offset, e, k); }
    while i < end
      invariant k <= i <= end
      invariant Filled(ucs[..], was, offset, e, i)
    {
      FilledExtends(ucs[..], was, offset, e, i);
      LfnCharAt(e, i);
      var at := from + 2 * (i - k);
      ucs[offset + i] := e[at] as int + 0x100 * e[at + 1] as int;
      i := i + 1;
    }
  }

  lemma FilledLength(s: seq<nat>, was: seq<nat>, offset: nat, e: RawEntry, k: nat)
    requires Filled(s, was, offset, e, k)
    ensures |s| == |was|
  {
  }

  /** The first `len` characters of an entry, from its three runs. */
  method CopyRuns(ucs: array<nat>, offset: nat, e: RawEntry, len: nat)
    requires 0 < len <= 13 && offset + len <= ucs.Length
    modifies ucs
    ensures ucs[..] == old(ucs[..])[..offset] + LfnChars(e, len) + old(ucs[..])[offset + len..]
  {
    hide LfnChar, Run;
    ghost var was := ucs[..];
    RunsAre(len);
    CopyChars(ucs, offset, e, 1, 0, if len >= 5 then 5 else len, was);
    if len > 5 {
      CopyChars(ucs, offset, e, 0xe, 5, if len >= 11 then 11 else len, was);
      if len > 11 {
        CopyChars(ucs, offset, e, 0x1c, 11, len, was);
      }
    }
  }

  /** The long-name branch of `dir_next`, cut short by the end of the buffer. */
  method CollectInto(ucs: array<nat>, e: RawEntry)
    modifies ucs
    ensures ucs[..] == Collect(old(ucs[..]), e)
  {
    var seqNumber := SeqNumber(e);
    if 1 <= seqNumber <= 0x14 {
      var offset := (seqNumber - 1) * 13;
      if offset < ucs.Length {
        var len := if LastLogical(e) && seqNumber >= 0x14 then 9 else 13;
        if offset + len > ucs.Length {
          len := ucs.Length - offset;
        }
        CopyRuns(ucs, offset, e, len);
        if LastLogical(e) && ucs.Length - offset > len {
          ucs[offset + len] := 0;
        }
      }
    }
  }

  lemma OverlayExtends(base: seq<nat>, s: seq<nat>, x: nat)
    ensures |s| < |base| ==> Overlay(base, s)[|s| := x] == Overlay(base, s + [x])
    ensures |s| >= |base| ==> Overlay(base, s) == Overlay(base, s + [x])
  {
    if |s| < |base| {
      assert Overlay(base, s)[|s| := x] == s + [x] + base[|s| + 1..];
    } else {
      assert (s + [x])[..|base|] == s[..|base|];
    }
  }

  lemma OverlayFull(base: seq<nat>, s: seq<nat>, t: seq<nat>)
    requires |s| >= |base|
    ensures Overlay(base, s) == Overlay(base, s + t)
  {
    assert (s + t)[..|base|] == s[..|base|];
  }

  /** One loop of `generate_lfn`: the characters above a space, up to the end of the buffer.  The
      buffer already holds `done` over `base`. */
  method CopyLowered(ucs: array<nat>, at: nat, s: seq<byte>, ghost base: seq<nat>, ghost done: seq<nat>) returns (end: nat)
    requires |base| == ucs.Length && at == Min(|done|, |base|) && ucs[..] == Overlay(base, done)
    modifies ucs
    ensures end == Min(|done + Lowered(s)|, |base|) && ucs[..] == Overlay(base, done + Lowered(s))
  {
    hide Overlay, Lowered;
    var i := 0;
    assert Lowered(s)[..0] == [] && done + [] == done;
    while at + i < ucs.Length && i < |s| && s[i] > 0x20
      invariant 0 <= i <= |s| && i <= |Lowered(s)| && at + i <= ucs.Length
      invariant i > 0 ==> at == |done|
      invariant forall j :: 0 <= j < i ==> s[j] > 0x20
      invariant ucs[..] == Overlay(base, done + Lowered(s)[..i])
    {
      LoweredAt(s, i);
      ghost var t := done + Lowered(s)[..i];
      OverlayExtends(base, t, AsLowerCase(s[i]));
      assert done + Lowered(s)[..i + 1] == t + [AsLowerCase(s[i])];
      ucs[at + i] := AsLowerCase(s[i]);
      i := i + 1;
    }
    end := at + i;
    if end < ucs.Length {
      LoweredStops(s, i);
      assert Lowered(s)[..i] == Lowered(s);
    } else {
      OverlayFull(base, done + Lowered(s)[..i], Lowered(s)[i..]);
      assert done + Lowered(s)[..i] + Lowered(s)[i..] == done + Lowered(s);
    }
  }

  method GenerateInto(ucs: array<nat>, name: seq<byte>, ext: seq<byte>)
    requires |ext| > 0
    modifies ucs
    ensures ucs[..] == GenerateLfn(old(ucs[..]), name, ext)
  {
    hide Overlay, Lowered;
    ghost var base := ucs[..];
    assert ucs[..] == Overlay(base, []) by { OverlayNothing(base); }
    var at := CopyLowered(ucs, 0, name, base, []);
    ghost var done := Lowered(name);
    assert [] + done == done;
    if ext[0] > 0x20 {
      OverlayExtends(base, done, '.' as int);
      done := done + ['.' as int];
    }
    if at < ucs.Length && ext[0] > 0x20 {
      ucs[at] := '.' as int;
      at := at + 1;
    }
    assert done == Lowered(name) + (if ext[0] > 0x20 then ['.' as int] else []);
    at := CopyLowered(ucs, at, ext, base, done);
    if at < ucs.Length {
      ucs[at] := 0;
    }
  }

  lemma OverlayNothing(base: seq<nat>)
    ensures Overlay(base, []) == base
  {
  }
}
