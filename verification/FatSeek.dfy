/** The position of an open object under any mix of seeks and reads, and the cluster list of
    `file_clusters`. */
module FatSeek {
  import opened Words
  import opened BlockCache
  import opened FatVolume
  import opened FatRead

  // ----- seeking -----------------------------------------------------------------------------

  lemma {:induction false} RemBase(q: nat, b: nat)
    requires b > 0
    ensures Rem(q - Rem(q, b), b) == 0 && Quot(q - Rem(q, b), b) == Quot(q, b)
  {
    if q >= b {
      RemBase(q - b, b);
      assert q - Rem(q, b) == (q - b - Rem(q - b, b)) + b;
    }
  }

  /** From the start of the cluster that holds `currOffset`, the scan stops in the cluster that
      holds `offset`, or past the chain when `offset` is a file end on a cluster boundary. */
  lemma {:induction false} ScanFindsCluster(
      v: Volume, card: Card, c: Cache, f: File, cluster: nat, currOffset: nat, offset: nat)
    requires WellFormed(v, card, f) && c.Valid() && c.Agrees(card)
    requires currOffset <= offset <= f.length && v.Within(currOffset) == 0
    requires currOffset < f.length ==>
               v.ClusterOf(currOffset) < |f.chain| && cluster == f.chain[v.ClusterOf(currOffset)]
    ensures var w := Scan(v, card, c, cluster, currOffset, offset);
            && w.cache.Agrees(card) && w.cluster.Some?
            && (offset - v.Within(offset) < f.length ==>
                  v.ClusterOf(offset) < |f.chain| && w.cluster.value == f.chain[v.ClusterOf(offset)])
    decreases offset - currOffset
  {
    hide WellFormed, ClusterOk, Link, ClusterNext;
    if offset - currOffset < v.ClusterBytes() {
      RemAdvance(currOffset, offset - currOffset, v.ClusterBytes());
    } else {
      InChainOk(v, card, f, currOffset);
      var next := currOffset + v.ClusterBytes();
      NextFollowsChain(v, card, c, cluster);
      var w := ClusterNext(v, card, c, cluster);
      if next < f.length {
        InChain(v, card, f, next);
        ChainLink(v, card, f, v.ClusterOf(currOffset));
      }
      ScanFindsCluster(v, card, w.cache, f, w.next.value, next, offset);
    }
  }

  lemma InChainOk(v: Volume, card: Card, f: File, q: nat)
    requires WellFormed(v, card, f) && q < f.length
    ensures v.ClusterOf(q) < |f.chain| && ClusterOk(v, card, f.chain[v.ClusterOf(q)])
  {
    IndexInChain(v, f, q);
  }

  lemma HasFirst(v: Volume, card: Card, f: File, p: Pos)
    requires WellFormed(v, card, f) && PosOk(v, f, p) && f.length > 0
    ensures f.chain != [] && p.firstCluster == f.chain[0]
  {
  }

  /** A seek within the file succeeds and leaves a consistent position; one past its end fails and
      leaves the position alone. */
  lemma SeekKeepsPosition(v: Volume, card: Card, c: Cache, f: File, p: Pos, offset: nat)
    requires WellFormed(v, card, f) && PosOk(v, f, p) && p.length == f.length && c.Valid() && c.Agrees(card)
    ensures var r := Seek(v, card, c, p, offset);
            && (r.ok <==> offset <= f.length)
            && r.pos.offset == (if r.ok then offset else p.offset)
            && PosOk(v, f, r.pos) && r.pos.length == p.length && r.cache.Agrees(card)
  {
    hide WellFormed, Quot, Rem, Scan;
    PosBounds(v, f, p);
    if offset <= p.length {
      var base := p.offset - v.Within(p.offset);
      RemBase(p.offset, v.ClusterBytes());
      if offset < base {
        HasFirst(v, card, f, p);
        assert v.Within(0) == 0 && v.ClusterOf(0) == 0 by { ZeroOffset(v); }
        ScanFindsCluster(v, card, c, f, p.firstCluster, 0, offset);
      } else {
        ScanFindsCluster(v, card, c, f, p.currCluster, base, offset);
      }
    }
  }

  lemma ZeroOffset(v: Volume)
    ensures v.Within(0) == 0 && v.ClusterOf(0) == 0
  {
  }

  // ----- any mix of seeks and reads ----------------------------------------------------------

  datatype Op = SeekTo(offset: nat) | ReadNext(len: nat)

  datatype Opened = Opened(cache: Cache, pos: Pos)

  function Perform(v: Volume, card: Card, o: Opened, ops: seq<Op>): (r: Opened)
    requires o.cache.Valid()
    ensures r.cache.Valid()
    decreases |ops|
  {
    if ops == [] then o
    else match ops[0]
      case SeekTo(offset) =>
        var r := Seek(v, card, o.cache, o.pos, offset);
        Perform(v, card, Opened(r.cache, r.pos), ops[1..])
      case ReadNext(len) =>
        var r := Read(v, card, o.cache, o.pos, len);
        Perform(v, card, Opened(r.cache, r.pos), ops[1..])
  }

  /** Every position reached by seeks and reads is consistent, and the cache keeps agreeing with
      the medium. */
  lemma {:induction false} SeeksAndReadsKeepPosition(v: Volume, card: Card, f: File, o: Opened, ops: seq<Op>)
    requires WellFormed(v, card, f) && PosOk(v, f, o.pos) && o.pos.length == f.length && o.cache.Valid() && o.cache.Agrees(card)
    ensures PosOk(v, f, Perform(v, card, o, ops).pos)
    ensures Perform(v, card, o, ops).cache.Agrees(card)
    decreases |ops|
  {
    hide WellFormed, PosOk, Seek, Read, Harmless, Bytes;
    if ops != [] {
      match ops[0]
      case SeekTo(offset) =>
        SeekKeepsPosition(v, card, o.cache, f, o.pos, offset);
        var r := Seek(v, card, o.cache, o.pos, offset);
        SeeksAndReadsKeepPosition(v, card, f, Opened(r.cache, r.pos), ops[1..]);
      case ReadNext(len) =>
        ReadExactlyWhenHarmless(v, card, o.cache, f, o.pos, len);
        var r := Read(v, card, o.cache, o.pos, len);
        SeeksAndReadsKeepPosition(v, card, f, Opened(r.cache, r.pos), ops[1..]);
    }
  }

  // ----- the cluster list --------------------------------------------------------------------

  datatype Listed = Listed(cache: Cache, pos: Pos, clusters: seq<nat>)

  /** The loop of `file_clusters`: the position it stores pairs the offset of the following cluster
      with the cluster just listed. */
  function List(v: Volume, card: Card, c: Cache, p: Pos, cluster: nat, offset: nat, len: nat): (r: Listed)
    requires c.Valid()
    ensures r.cache.Valid() && |r.clusters| <= len
    decreases len
  {
    if len == 0 || EndOfChain(cluster) then Listed(c, p, [])
    else
      var w := ClusterNext(v, card, c, cluster);
      if w.next.None? then Listed(w.cache, p, [cluster])
      else
        var next := (offset + v.ClusterBytes()) % TWO32;
        var r := List(v, card, w.cache, p.(offset := next, currCluster := cluster), w.next.value, next, len - 1);
        Listed(r.cache, r.pos, [cluster] + r.clusters)
  }

  /** `file_clusters` on a valid handle. */
  function FileClusters(v: Volume, card: Card, c: Cache, p: Pos, len: nat): (r: Listed)
    requires c.Valid()
    ensures r.cache.Valid()
  {
    List(v, card, c, p, p.currCluster, p.offset - v.Within(p.offset), len)
  }

  /** A chain whose last link is an end-of-chain marker. */
  ghost predicate Terminated(v: Volume, card: Card, f: File) {
    f.chain != [] ==>
      EndOfChain(Link(card(v.fatStart + f.chain[|f.chain| - 1] / 128).data, f.chain[|f.chain| - 1]))
  }

  /** One trip of the list loop on the chain. */
  lemma ListUnfolds(v: Volume, card: Card, c: Cache, f: File, p: Pos,
                    cluster: nat, offset: nat, i: nat, len: nat) returns (c': Cache, next: nat)
    requires WellFormed(v, card, f) && Terminated(v, card, f) && c.Valid() && c.Agrees(card)
    requires i < |f.chain| && cluster == f.chain[i] && len > 0
    ensures c'.Valid() && c'.Agrees(card)
    ensures if i + 1 < |f.chain| then next == f.chain[i + 1] else EndOfChain(next)
    ensures var off := (offset + v.ClusterBytes()) % TWO32;
            var r := List(v, card, c', p.(offset := off, currCluster := cluster), next, off, len - 1);
            List(v, card, c, p, cluster, offset, len) == Listed(r.cache, r.pos, [cluster] + r.clusters)
  {
    hide WellFormed, Terminated, ClusterNext, Link, ClusterOk, Volume.ClusterBytes, EndOfChain;
    LinkAt(v, card, f, i);
    NextFollowsChain(v, card, c, cluster);
    var w := ClusterNext(v, card, c, cluster);
    c', next := w.cache, w.next.value;
  }

  lemma ListEnds(v: Volume, card: Card, c: Cache, p: Pos, cluster: nat, offset: nat, len: nat)
    requires c.Valid() && (len == 0 || EndOfChain(cluster))
    ensures List(v, card, c, p, cluster, offset, len) == Listed(c, p, [])
  {
  }

  lemma FirstOfSlice(s: seq<nat>, lo: nat, hi: nat)
    requires lo < hi <= |s|
    ensures s[lo..hi] == [s[lo]] + s[lo + 1..hi]
  {
  }

  lemma {:induction false} ListIsChain(v: Volume, card: Card, c: Cache, f: File, p: Pos,
                                       cluster: nat, offset: nat, i: nat, len: nat)
    requires WellFormed(v, card, f) && Terminated(v, card, f) && c.Valid() && c.Agrees(card)
    requires i <= |f.chain| && (if i < |f.chain| then cluster == f.chain[i] else EndOfChain(cluster))
    ensures var r := List(v, card, c, p, cluster, offset, len);
            var n := Min(len, |f.chain| - i);
            && r.clusters == f.chain[i..i + n] && r.cache.Agrees(card)
            && (n > 0 ==> r.pos.currCluster == f.chain[i + n - 1])
            && (n == 0 ==> r.pos == p)
            && r.pos.length == p.length && r.pos.firstCluster == p.firstCluster
    decreases len
  {
    hide WellFormed, Terminated, Volume.ClusterBytes, EndOfChain, List;
    if len == 0 || i == |f.chain| {
      ListEnds(v, card, c, p, cluster, offset, len);
    } else {
      var c', next := ListUnfolds(v, card, c, f, p, cluster, offset, i, len);
      var off, n := (offset + v.ClusterBytes()) % TWO32, Min(len, |f.chain| - i);
      ListIsChain(v, card, c', f, p.(offset := off, currCluster := cluster), next, off, i + 1, len - 1);
      FirstOfSlice(f.chain, i, i + n);
    }
  }

  /** The offset that it stores after `n` clusters, in 32-bit arithmetic. */
  function StoredOffset(v: Volume, offset: nat, n: nat): (r: nat)
    ensures r < TWO32
  {
    (offset + n * v.ClusterBytes()) % TWO32
  }

  lemma {:induction false} ListOffset(v: Volume, card: Card, c: Cache, f: File, p: Pos,
                                      cluster: nat, offset: nat, i: nat, len: nat)
    requires WellFormed(v, card, f) && Terminated(v, card, f) && c.Valid() && c.Agrees(card)
    requires i <= |f.chain| && (if i < |f.chain| then cluster == f.chain[i] else EndOfChain(cluster))
    requires p.offset == offset < TWO32
    ensures List(v, card, c, p, cluster, offset, len).pos.offset == StoredOffset(v, offset, Min(len, |f.chain| - i))
    decreases len
  {
    hide WellFormed, Terminated, Volume.ClusterBytes, EndOfChain, List, StoredOffset;
    if len == 0 || i == |f.chain| {
      ListEnds(v, card, c, p, cluster, offset, len);
      NothingStored(v, offset);
    } else {
      var c', next := ListUnfolds(v, card, c, f, p, cluster, offset, i, len);
      var n, off := Min(len, |f.chain| - i), (offset + v.ClusterBytes()) % TWO32;
      OneClusterMore(v, offset, n);
      ListOffset(v, card, c', f, p.(offset := off, currCluster := cluster), next, off, i + 1, len - 1);
    }
  }

  lemma NothingStored(v: Volume, offset: nat)
    requires offset < TWO32
    ensures StoredOffset(v, offset, 0) == offset
  {
  }

  lemma OneClusterMore(v: Volume, offset: nat, n: nat)
    requires n > 0
    ensures StoredOffset(v, (offset + v.ClusterBytes()) % TWO32, n - 1) == StoredOffset(v, offset, n)
  {
    hide Volume.ClusterBytes;
    var cb := v.ClusterBytes();
    var rest := (n - 1) * cb;
    assert n * cb == cb + rest;
    ModShift(offset + cb, rest);
  }

  lemma ModShift(a: nat, b: int)
    ensures (a % TWO32 + b) % TWO32 == (a + b) % TWO32
  {
  }

  lemma LinkAt(v: Volume, card: Card, f: File, i: nat)
    requires WellFormed(v, card, f) && Terminated(v, card, f) && i < |f.chain|
    ensures ClusterOk(v, card, f.chain[i]) && !EndOfChain(f.chain[i])
    ensures var next := Link(card(v.fatStart + f.chain[i] / 128).data, f.chain[i]);
            if i + 1 < |f.chain| then next == f.chain[i + 1] else EndOfChain(next)
  {
    hide Link, LinkedTo, Quot;
    assert ClusterOk(v, card, f.chain[i]);
    if i + 1 < |f.chain| {
      ChainLink(v, card, f, i);
    }
  }

  /** Where a consistent position may have its cluster: that of its offset, or, at a file end on a cluster
      boundary, the one before it. */
  ghost predicate StandsAt(v: Volume, f: File, p: Pos, i: nat) {
    i < |f.chain| && p.currCluster == f.chain[i] && i <= v.ClusterOf(p.offset) <= i + 1
  }

  lemma StandsAtOffset(v: Volume, f: File, p: Pos)
    requires PosOk(v, f, p) && p.offset - v.Within(p.offset) < f.length
    ensures StandsAt(v, f, p, v.ClusterOf(p.offset))
  {
  }

  /** `file_clusters` lists the chain from the current cluster on, and nothing when that is an
      end-of-chain marker. */
  lemma FileClustersListsChain(v: Volume, card: Card, c: Cache, f: File, p: Pos, i: nat, len: nat)
    requires WellFormed(v, card, f) && Terminated(v, card, f) && c.Valid() && c.Agrees(card)
    requires StandsAt(v, f, p, i) || (i == |f.chain| && EndOfChain(p.currCluster))
    ensures FileClusters(v, card, c, p, len).clusters == f.chain[i..i + Min(len, |f.chain| - i)]
  {
    hide WellFormed, Quot, Rem, List;
    ListIsChain(v, card, c, f, p, p.currCluster, p.offset - v.Within(p.offset), i, len);
  }

  /** The position it leaves is consistent only when nothing was listed or the stored offset, which
      wraps at 2^32, is the file's end: otherwise the offset is not in the stored cluster.  Clusters
      are at most 2^25 bytes, as `init` checks. */
  lemma FileClustersBreaksPositionUnless(v: Volume, card: Card, c: Cache, f: File, p: Pos, i: nat, len: nat)
    requires WellFormed(v, card, f) && Terminated(v, card, f) && Acyclic(v, f) && c.Valid() && c.Agrees(card)
    requires PosOk(v, f, p) && p.length == f.length && v.blksPerClusterShift <= 16
    requires StandsAt(v, f, p, i) || (i == |f.chain| && EndOfChain(p.currCluster))
    ensures var n := Min(len, |f.chain| - i);
            PosOk(v, f, FileClusters(v, card, c, p, len).pos) <==>
            n == 0 || StoredOffset(v, p.offset - v.Within(p.offset), n) == f.length
  {
    hide WellFormed, Quot, Rem, List, ClusterOk, DataBlock, Volume.ClusterBytes, StoredOffset;
    LengthBound(v, card, f);
    var base := p.offset - v.Within(p.offset);
    var n := Min(len, |f.chain| - i);
    ListIsChain(v, card, c, f, p, p.currCluster, base, i, len);
    if n > 0 {
      ListOffsetFrom(v, card, c, f, p, base, i, len);
      StoredIsElsewhere(v, p.offset, n, i);
    }
  }

  lemma LengthBound(v: Volume, card: Card, f: File)
    requires WellFormed(v, card, f)
    ensures f.length < TWO32
  {
  }

  /** The first trip overwrites the position's own offset, so only the aligned start matters. */
  lemma ListOffsetFrom(v: Volume, card: Card, c: Cache, f: File, p: Pos, base: nat, i: nat, len: nat)
    requires WellFormed(v, card, f) && Terminated(v, card, f) && c.Valid() && c.Agrees(card)
    requires i < |f.chain| && p.currCluster == f.chain[i] && len > 0
    requires base < TWO32
    ensures List(v, card, c, p, p.currCluster, base, len).pos.offset == StoredOffset(v, base, Min(len, |f.chain| - i))
  {
    hide WellFormed, Terminated, Volume.ClusterBytes, EndOfChain, Quot, StoredOffset;
    ListOffset(v, card, c, f, p.(offset := base), p.currCluster, base, i, len);
    var c1, next1 := ListUnfolds(v, card, c, f, p, p.currCluster, base, i, len);
    var c2, next2 := ListUnfolds(v, card, c, f, p.(offset := base), p.currCluster, base, i, len);
  }

  /** A multiple of the cluster size is the start of its cluster. */
  lemma {:induction false} WholeClusters(v: Volume, n: nat)
    ensures n * v.ClusterBytes() >= 0
    ensures v.Within(n * v.ClusterBytes()) == 0 && v.ClusterOf(n * v.ClusterBytes()) == n
  {
    var cb := v.ClusterBytes();
    if n > 0 {
      WholeClusters(v, n - 1);
      assert n * cb == (n - 1) * cb + cb;
    }
  }

  lemma {:induction false} Pow2Sum(a: nat, b: nat)
    ensures Pow2(a + b) == Pow2(a) * Pow2(b)
  {
    if a > 0 {
      Pow2Sum(a - 1, b);
      Doubled(Pow2(a - 1), Pow2(b));
    }
  }

  lemma Doubled(x: nat, y: nat)
    ensures (2 * x) * y == 2 * (x * y)
  {
  }

  lemma Pow2Small()
    ensures Pow2(23) == 0x80_0000
  {
    assert Pow2(8) == 0x100;
    assert Pow2(16) == 0x1_0000;
  }

  /** The 32-bit space is a whole number of clusters, more than one. */
  lemma ClustersInSpace(v: Volume) returns (m: nat)
    requires v.blksPerClusterShift <= 16
    ensures m > 2 && m * v.ClusterBytes() == TWO32
  {
    hide Pow2;
    var k := 23 - v.blksPerClusterShift;
    m := Pow2(k);
    Pow2Sum(k, v.blksPerClusterShift);
    Pow2Small();
    Pow2Even(k);
    Regroup(m, v.BlksPerCluster());
  }

  lemma Pow2Even(k: nat)
    requires k > 1
    ensures Pow2(k) > 2
  {
    assert Pow2(k) == 2 * Pow2(k - 1) && Pow2(k - 1) == 2 * Pow2(k - 2);
  }

  lemma Regroup(m: nat, b: nat)
    ensures m * (BLOCK_LEN * b) == BLOCK_LEN * (m * b)
  {
  }

  /** The stored offset starts a cluster other than the last one listed. */
  lemma StoredIsElsewhere(v: Volume, offset: nat, n: nat, at: nat)
    requires v.blksPerClusterShift <= 16 && n > 0 && at <= v.ClusterOf(offset) <= at + 1
    ensures var stored := StoredOffset(v, offset - v.Within(offset), n);
            v.Within(stored) == 0 && v.ClusterOf(stored) != at + n - 1
  {
    hide Volume.ClusterBytes, Quot, Rem;
    var cb, i := v.ClusterBytes(), v.ClusterOf(offset);
    var m := ClustersInSpace(v);
    QuotRem(offset, cb);
    var sum := (i + n) * cb;
    assert sum == i * cb + n * cb && sum >= 0;
    var k := sum / TWO32;
    WrappedMultiple(i + n, k, m, cb);
    var t := i + n - k * m;
    WholeClusters(v, t);
    MultipleIsLarge(k, m);
  }

  lemma MultipleIsLarge(k: nat, m: nat)
    requires m > 2
    ensures k * m != 1 && k * m != 2
  {
    if k >= 1 {
      assert k * m >= m + (k - 1) * m;
    }
  }

  /** Taking whole spaces off a multiple of the cluster size. */
  lemma WrappedMultiple(a: nat, k: nat, m: nat, cb: nat)
    requires m * cb == TWO32 && k == a * cb / TWO32 && cb > 0
    ensures a - k * m >= 0 && (a - k * m) * cb == a * cb % TWO32
  {
    assert (k * m) * cb == k * (m * cb);
    assert (a - k * m) * cb == a * cb - k * TWO32;
    if a - k * m < 0 {
      NegativeProduct(a - k * m, cb);
    }
  }

  lemma NegativeProduct(a: int, b: nat)
    requires a < 0 && b > 0
    ensures a * b < 0
  {
  }
}
