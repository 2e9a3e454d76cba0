/** The eight-entry block cache of `fileSysUtils`: lookup, round-robin refill, and the refinement
    of a first-in first-out queue of block numbers. */
module BlockCache {
  import opened Words

  const BLOCK_LEN: nat := 512
  const CACHE_ENTRIES: nat := 8
  const INVALID_BLOCK: nat := 0xffff_ffff

  type Block = s: seq<byte> | |s| == BLOCK_LEN witness seq(BLOCK_LEN, i => 0)

  /** What one `read_blocks` request leaves in the caller's buffer, and whether the driver accepts
      it.  A rejected block (a CRC mismatch) has still overwritten the buffer. */
  datatype Delivery = Delivery(data: Block, ok: bool)

  /** The medium as the driver sees it. */
  type Card = nat -> Delivery

  datatype Entry = Entry(block: nat, data: Block)

  datatype Cache = Cache(entries: seq<Entry>, next: nat) {
    ghost predicate Valid() {
      |entries| == CACHE_ENTRIES && next < CACHE_ENTRIES
    }

    /** Every occupied entry holds the medium's block of that number. */
    ghost predicate Agrees(card: Card) {
      forall i :: 0 <= i < |entries| && entries[i].block != INVALID_BLOCK ==>
        entries[i].data == card(entries[i].block).data
    }

    ghost predicate Holds(block: nat) {
      exists i :: 0 <= i < |entries| && entries[i].block == block
    }
  }

  /** The lowest entry at or above `from` that is tagged with `block`. */
  function Lookup(entries: seq<Entry>, block: nat, from: nat): (r: Option<nat>)
    requires from <= |entries|
    ensures r.Some? ==> from <= r.value < |entries| && entries[r.value].block == block
    ensures r.Some? ==> forall i :: from <= i < r.value ==> entries[i].block != block
    ensures r.None? ==> forall i :: from <= i < |entries| ==> entries[i].block != block
    decreases |entries| - from
  {
    if from == |entries| then None
    else if entries[from].block == block then Some(from)
    else Lookup(entries, block, from + 1)
  }

  datatype Ensured = Ensured(cache: Cache, idx: Option<nat>)

  /** `block_ensure` on values. */
  function Ensure(c: Cache, card: Card, block: nat): (r: Ensured)
    requires c.Valid()
    ensures r.cache.Valid()
    ensures r.idx.Some? ==> r.idx.value < CACHE_ENTRIES && r.cache.entries[r.idx.value].block == block
  {
    var hit := Lookup(c.entries, block, 0);
    if hit.Some? then Ensured(c, hit)
    else if card(block).ok then
      Ensured(Cache(c.entries[c.next := Entry(block, card(block).data)], (c.next + 1) % CACHE_ENTRIES), Some(c.next))
    else
      Ensured(c.(entries := c.entries[c.next := c.entries[c.next].(data := card(block).data)]), None)
  }

  function UnusedEntry(): Entry {
    Entry(INVALID_BLOCK, seq(BLOCK_LEN, i => 0))
  }

  /** The cache as `fin` leaves it. */
  ghost predicate Empty(c: Cache) {
    c.Valid() && c.next == 0 && forall i :: 0 <= i < CACHE_ENTRIES ==> c.entries[i].block == INVALID_BLOCK
  }

  /** A successful access delivers the medium's bytes and keeps the cache in agreement. */
  lemma EnsureAgrees(c: Cache, card: Card, block: nat)
    requires c.Valid() && c.Agrees(card)
    requires card(block).ok && block != INVALID_BLOCK
    ensures var r := Ensure(c, card, block);
            r.cache.Agrees(card) && r.idx.Some? && r.cache.entries[r.idx.value].data == card(block).data
  {
  }

  /** An unused entry passes for a copy of block 0xffffffff, which is then never read. */
  lemma UnusedIsHit(c: Cache, card: Card)
    requires c.Valid() && exists i :: 0 <= i < CACHE_ENTRIES && c.entries[i] == UnusedEntry()
    ensures var r := Ensure(c, card, 0xffff_ffff);
            r.cache == c && r.idx.Some?
  {
  }

  /** A refused delivery overwrites the victim's bytes under its old tag, so agreement survives it
      exactly when that entry was unused or the stray bytes happen to be the right ones. */
  lemma RefusedReadKeepsAgreementIff(c: Cache, card: Card, block: nat)
    requires c.Valid() && c.Agrees(card) && !c.Holds(block) && !card(block).ok
    ensures var victim := c.entries[c.next].block;
            Ensure(c, card, block).cache.Agrees(card) <==>
            victim == INVALID_BLOCK || card(block).data == card(victim).data
  {
    var r := Ensure(c, card, block).cache;
    assert r.entries[c.next].data == card(block).data;
    assert r.entries[c.next].block == c.entries[c.next].block;
    forall i | 0 <= i < CACHE_ENTRIES && i != c.next
      ensures r.entries[i] == c.entries[i]
    {
    }
  }

  // ----- the queue the cache implements ------------------------------------------------------

  /** The occupied tags, oldest first. */
  ghost function Tags(c: Cache): (q: seq<nat>)
    requires c.Valid()
  {
    Occupied(Rotated(c))
  }

  ghost function Occupied(es: seq<Entry>): (q: seq<nat>) {
    if es == [] then []
    else if es[0].block == INVALID_BLOCK then Occupied(es[1..])
    else [es[0].block] + Occupied(es[1..])
  }

  /** A bounded first-in first-out queue: a request that misses is appended, and the oldest number
      leaves when there would be nine. */
  function QueueAccess(q: seq<nat>, block: nat): (r: seq<nat>)
  {
    if block in q then q
    else if |q| < CACHE_ENTRIES then q + [block]
    else q[1..] + [block]
  }

  function QueueRun(q: seq<nat>, blocks: seq<nat>): (r: seq<nat>)
    decreases |blocks|
  {
    if blocks == [] then q else QueueRun(QueueAccess(q, blocks[0]), blocks[1..])
  }

  function EnsureRun(c: Cache, card: Card, blocks: seq<nat>): (r: Cache)
    requires c.Valid()
    ensures r.Valid()
    decreases |blocks|
  {
    if blocks == [] then c else EnsureRun(Ensure(c, card, blocks[0]).cache, card, blocks[1..])
  }

  /** The entries in the order they will be evicted. */
  ghost function Rotated(c: Cache): (es: seq<Entry>)
    requires c.Valid()
    ensures |es| == CACHE_ENTRIES
  {
    c.entries[c.next..] + c.entries[..c.next]
  }

  /** Unused entries come first, and occupied tags are pairwise distinct. */
  ghost predicate OrderlyEntries(es: seq<Entry>) {
    && (forall i, j :: 0 <= i < j < |es| && es[i].block != INVALID_BLOCK ==> es[j].block != INVALID_BLOCK)
    && (forall i, j :: 0 <= i < j < |es| && es[i].block != INVALID_BLOCK ==> es[i].block != es[j].block)
  }

  ghost predicate Orderly(c: Cache) {
    c.Valid() && OrderlyEntries(Rotated(c))
  }

  lemma {:induction false} OccupiedConcat(a: seq<Entry>, b: seq<Entry>)
    ensures Occupied(a + b) == Occupied(a) + Occupied(b)
  {
    if a == [] {
      assert a + b == b;
    } else {
      OccupiedConcat(a[1..], b);
      ConcatTail(a, b);
    }
  }

  lemma ConcatTail(a: seq<Entry>, b: seq<Entry>)
    requires a != []
    ensures (a + b)[0] == a[0] && (a + b)[1..] == a[1..] + b
  {
  }

  lemma {:induction false} OccupiedMembers(es: seq<Entry>, block: nat)
    ensures block in Occupied(es) <==>
            block != INVALID_BLOCK && exists i :: 0 <= i < |es| && es[i].block == block
    ensures |Occupied(es)| <= |es|
  {
    if es != [] {
      OccupiedMembers(es[1..], block);
      if exists i :: 0 <= i < |es| && es[i].block == block {
        var i :| 0 <= i < |es| && es[i].block == block;
        if i > 0 {
          assert es[1..][i - 1].block == block;
        }
      }
    }
  }

  lemma {:induction false} OccupiedFull(es: seq<Entry>)
    requires forall i :: 0 <= i < |es| ==> es[i].block != INVALID_BLOCK
    ensures |Occupied(es)| == |es|
    ensures forall i :: 0 <= i < |es| ==> Occupied(es)[i] == es[i].block
  {
    if es != [] {
      OccupiedFull(es[1..]);
      forall i | 0 <= i < |es|
        ensures Occupied(es)[i] == es[i].block
      {
        if i > 0 {
          assert es[1..][i - 1] == es[i];
        }
      }
    }
  }

  /** Refilling the victim drops the oldest of the rotated entries and appends the new one. */
  lemma RotationAfterMiss(c: Cache, e: Entry)
    requires c.Valid()
    ensures Rotated(Cache(c.entries[c.next := e], (c.next + 1) % CACHE_ENTRIES)) == Rotated(c)[1..] + [e]
  {
    hide Rotated;
    var c' := Cache(c.entries[c.next := e], (c.next + 1) % CACHE_ENTRIES);
    forall i | 0 <= i < CACHE_ENTRIES
      ensures Rotated(c')[i] == (Rotated(c)[1..] + [e])[i]
    {
      RotatedAt(c', i);
      if i < CACHE_ENTRIES - 1 {
        RotatedAt(c, i + 1);
      }
    }
  }

  lemma RotatedMembers(c: Cache, block: nat)
    requires c.Valid()
    ensures c.Holds(block) <==> exists i :: 0 <= i < CACHE_ENTRIES && Rotated(c)[i].block == block
  {
    hide Rotated;
    if c.Holds(block) {
      var i :| 0 <= i < CACHE_ENTRIES && c.entries[i].block == block;
      RotatedAt(c, if i >= c.next then i - c.next else i + CACHE_ENTRIES - c.next);
    }
    if exists i :: 0 <= i < CACHE_ENTRIES && Rotated(c)[i].block == block {
      var i :| 0 <= i < CACHE_ENTRIES && Rotated(c)[i].block == block;
      RotatedAt(c, i);
    }
  }

  lemma RotatedAt(c: Cache, i: nat)
    requires c.Valid() && i < CACHE_ENTRIES
    ensures Rotated(c)[i] == c.entries[if i + c.next < CACHE_ENTRIES then i + c.next else i + c.next - CACHE_ENTRIES]
  {
  }

  /** Shifting a new tag into orderly entries is a queue access. */
  lemma ShiftInIsQueueAccess(es: seq<Entry>, e: Entry)
    requires |es| == CACHE_ENTRIES && OrderlyEntries(es) && e.block != INVALID_BLOCK
    requires forall i :: 0 <= i < |es| ==> es[i].block != e.block
    ensures OrderlyEntries(es[1..] + [e])
    ensures Occupied(es[1..] + [e]) == QueueAccess(Occupied(es), e.block)
  {
    OccupiedConcat(es[1..], [e]);
    assert Occupied([e]) == [e.block] by { assert [e][1..] == []; }
    OccupiedMembers(es, e.block);
    OccupiedMembers(es[1..], e.block);
    if es[0].block != INVALID_BLOCK {
      OccupiedFull(es);
    }
  }

  /** One accepted access is one queue access. */
  lemma AccessRefinesQueue(c: Cache, card: Card, block: nat)
    requires Orderly(c) && card(block).ok && block != INVALID_BLOCK
    ensures Orderly(Ensure(c, card, block).cache)
    ensures Tags(Ensure(c, card, block).cache) == QueueAccess(Tags(c), block)
  {
    RotatedMembers(c, block);
    OccupiedMembers(Rotated(c), block);
    if !c.Holds(block) {
      var e := Entry(block, card(block).data);
      RotationAfterMiss(c, e);
      ShiftInIsQueueAccess(Rotated(c), e);
    }
  }

  /** Over every run of accepted accesses the cached block numbers, oldest first, are the queue's,
      they are distinct and at most eight, and every entry still equals the medium. */
  lemma {:induction false} CacheRefinesQueue(c: Cache, card: Card, blocks: seq<nat>)
    requires Orderly(c) && c.Agrees(card)
    requires forall b :: b in blocks ==> card(b).ok && b != INVALID_BLOCK
    ensures var c' := EnsureRun(c, card, blocks);
            && Orderly(c') && c'.Agrees(card)
            && Tags(c') == QueueRun(Tags(c), blocks)
    decreases |blocks|
  {
    if blocks != [] {
      AccessRefinesQueue(c, card, blocks[0]);
      EnsureAgrees(c, card, blocks[0]);
      CacheRefinesQueue(Ensure(c, card, blocks[0]).cache, card, blocks[1..]);
    }
  }

  lemma EmptyIsOrderly(c: Cache, card: Card)
    requires Empty(c)
    ensures Orderly(c) && c.Agrees(card) && Tags(c) == []
  {
    assert Rotated(c) == c.entries;
    OccupiedNone(Rotated(c));
  }

  lemma {:induction false} OccupiedNone(es: seq<Entry>)
    requires forall i :: 0 <= i < |es| ==> es[i].block == INVALID_BLOCK
    ensures Occupied(es) == []
  {
    if es != [] {
      OccupiedNone(es[1..]);
    }
  }
}
