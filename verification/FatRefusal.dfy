/** Reads and seeks over a medium that refuses blocks: what they have done until then is right. */
module FatRefusal {
  import opened Words
  import opened BlockCache
  import opened FatVolume
  import opened FatRead
  import opened FatSeek

  /** The blocks that the medium delivers are those of the image. */
  ghost predicate Honest(card: Card, image: Card) {
    forall b: nat :: card(b).ok ==> card(b) == image(b)
  }

  lemma EnsureHonest(c: Cache, card: Card, image: Card, block: nat)
    requires c.Valid() && Honest(card, image)
    ensures Ensure(c, card, block).idx.Some? ==> Ensure(c, card, block) == Ensure(c, image, block)
  {
  }

  lemma NextHonest(v: Volume, card: Card, image: Card, c: Cache, cluster: nat)
    requires c.Valid() && Honest(card, image)
    ensures ClusterNext(v, card, c, cluster).next.Some? ==> ClusterNext(v, card, c, cluster) == ClusterNext(v, image, c, cluster)
  {
    hide Ensure, Honest;
    EnsureHonest(c, card, image, v.FatBlock(cluster));
  }

  lemma StepHonest(v: Volume, card: Card, image: Card, c: Cache, p: Pos, len: nat)
    requires c.Valid() && Honest(card, image) && p.offset < p.length && len > 0
    ensures ReadStep(v, card, c, p, len).Copied? ==> ReadStep(v, card, c, p, len) == ReadStep(v, image, c, p, len)
  {
    hide Ensure, Honest, ClusterNext, Chunk, Crosses, Volume.BlockNumber, Volume.Within;
    var block := v.BlockNumber(p.currCluster, v.Within(p.offset));
    EnsureHonest(c, card, image, block);
    NextHonest(v, card, image, Ensure(c, card, block).cache, p.currCluster);
  }

  /** A read that a refusal cuts short returned the file's bytes so far and leaves a position that is
      consistent with them; one that no refusal cuts short is as on the image. */
  lemma {:induction false} ReadCutShort(v: Volume, card: Card, image: Card, c: Cache, f: File, p: Pos, len: nat)
    requires WellFormed(v, image, f) && Honest(card, image) && PosOk(v, f, p) && InFile(f, p, len)
    requires c.Valid() && c.Agrees(image) && NeverStale(v, image, c, p, len)
    ensures var r := Read(v, card, c, p, len);
            && p.offset + |r.bytes| <= f.length
            && r.bytes == Bytes(v, image, f, p.offset, p.offset + |r.bytes|)
            && PosOk(v, f, r.pos)
            && (|r.bytes| == Min(len, p.length - p.offset) ==> r == Read(v, image, c, p, len))
    decreases len
  {
    hide WellFormed, PosOk, Bytes, ReadStep, Honest, Chunk, HarmlessTrip, Harmless, Read, NeverStale;
    PosBounds(v, f, p);
    if len == 0 || p.offset >= p.length {
      ReadEnds(v, card, c, p, len);
      ReadEnds(v, image, c, p, len);
      NoBytesYet(v, image, f, p.offset);
    } else {
      var s := ReadStep(v, card, c, p, len);
      if s.Stopped? {
        ReadStopped(v, card, c, p, len, s);
        NoBytesYet(v, image, f, p.offset);
      } else {
        StepHonest(v, card, image, c, p, len);
        StaysSteady(v, image, c, p, len, s);
        ReadUnfolds(v, card, c, p, len, s);
        ReadUnfolds(v, image, c, p, len, s);
        NotStaleIsHarmless(v, image, c, p, len);
        StepExactlyWhenHarmless(v, image, c, f, p, len);
        ReadCutShort(v, card, image, s.cache, f, s.pos, len - |s.bytes|);
        var rest := Read(v, card, s.cache, s.pos, len - |s.bytes|);
        BytesJoin(v, image, f, p.offset, s.pos.offset, s.pos.offset + |rest.bytes|);
      }
    }
  }

  lemma NoBytesYet(v: Volume, card: Card, f: File, off: nat)
    requires WellFormed(v, card, f) && off <= f.length
    ensures Bytes(v, card, f, off, off) == []
  {
  }

  lemma ReadStopped(v: Volume, card: Card, c: Cache, p: Pos, len: nat, s: Step)
    requires c.Valid() && len > 0 && p.offset < p.length && s == ReadStep(v, card, c, p, len) && s.Stopped?
    ensures Read(v, card, c, p, len) == ReadResult(s.cache, p, [])
  {
    hide ReadStep;
  }

  lemma StaysSteady(v: Volume, card: Card, c: Cache, p: Pos, len: nat, s: Step)
    requires c.Valid() && len > 0 && p.offset < p.length && s == ReadStep(v, card, c, p, len) && s.Copied?
    requires NeverStale(v, card, c, p, len)
    ensures !Stale(v, c, p, len) && |s.bytes| <= len && NeverStale(v, card, s.cache, s.pos, len - |s.bytes|)
  {
    hide ReadStep, Stale;
  }

  lemma NotStaleIsHarmless(v: Volume, card: Card, c: Cache, p: Pos, len: nat)
    requires c.Valid() && p.offset < p.length && len > 0 && !Stale(v, c, p, len)
    ensures HarmlessTrip(v, card, c, p, len)
  {
    hide Stale;
  }

  lemma {:induction false} ScanHonest(v: Volume, card: Card, image: Card, c: Cache, cluster: nat, currOffset: nat, offset: nat)
    requires c.Valid() && Honest(card, image) && currOffset <= offset
    ensures Scan(v, card, c, cluster, currOffset, offset).cluster.Some? ==>
              Scan(v, card, c, cluster, currOffset, offset) == Scan(v, image, c, cluster, currOffset, offset)
    decreases offset - currOffset
  {
    hide ClusterNext, Honest, Volume.ClusterBytes;
    if offset - currOffset >= v.ClusterBytes() {
      NextHonest(v, card, image, c, cluster);
      var w := ClusterNext(v, card, c, cluster);
      if w.next.Some? {
        ScanHonest(v, card, image, w.cache, w.next.value, currOffset + v.ClusterBytes(), offset);
      }
    }
  }

  /** A seek either leaves the position alone or moves to the offset, consistently, as on the image. */
  lemma SeekCutShort(v: Volume, card: Card, image: Card, c: Cache, f: File, p: Pos, offset: nat)
    requires WellFormed(v, image, f) && Honest(card, image) && PosOk(v, f, p) && p.length == f.length
    requires c.Valid() && c.Agrees(image)
    ensures var r := Seek(v, card, c, p, offset);
            && PosOk(v, f, r.pos)
            && (if r.ok then r.pos.offset == offset && r == Seek(v, image, c, p, offset) else r.pos == p)
  {
    hide WellFormed, PosOk, Honest, Scan, Quot, Rem;
    var base := p.offset - v.Within(p.offset);
    if offset <= p.length {
      if offset < base {
        ScanHonest(v, card, image, c, p.firstCluster, 0, offset);
      } else {
        ScanHonest(v, card, image, c, p.currCluster, base, offset);
      }
      SeekKeepsPosition(v, image, c, f, p, offset);
    }
  }
}
