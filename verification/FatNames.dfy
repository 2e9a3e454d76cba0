/** When the name that `dir_next` returns ends in a NUL, and when it does not. */
module FatNames {
  import opened Words
  import opened BlockCache
  import opened FatVolume
  import opened FatRead
  import opened FatDirectory
  import opened FatFind

  // ----- what the parts of a name store ------------------------------------------------------

  /** What one long-name entry stores at place `i` of a buffer of `n` characters. */
  function Stored(e: RawEntry, n: nat, i: nat): Option<nat> {
    var offset := (SeqNumber(e) - 1) * 13;
    if !(1 <= SeqNumber(e) <= 0x14) || offset >= n then None
    else
      var end := Min(offset + (if LastLogical(e) && SeqNumber(e) == 0x14 then 9 else 13), n);
      if offset <= i < end then Some(LfnChar(e, i - offset))
      else if LastLogical(e) && i == end < n then Some(0)
      else None
  }

  lemma CollectStores(ucs: seq<nat>, e: RawEntry, i: nat)
    requires i < |ucs|
    ensures Collect(ucs, e)[i] == var s := Stored(e, |ucs|, i); if s.Some? then s.value else ucs[i]
  {
    hide LfnChar;
  }

  predicate IsPart(e: RawEntry) {
    e[0xb] == 0x0f
  }

  /** The buffer after all parts among some entries. */
  function CollectAll(ucs: seq<nat>, es: seq<RawEntry>): (r: seq<nat>)
    ensures |r| == |ucs|
    decreases |es|
  {
    if es == [] then ucs else CollectAll(if IsPart(es[0]) then Collect(ucs, es[0]) else ucs, es[1..])
  }

  /** The last character stored at a place. */
  function LastStored(es: seq<RawEntry>, n: nat, i: nat): Option<nat> {
    if es == [] then None
    else
      var later := LastStored(es[1..], n, i);
      if later.Some? then later else if IsPart(es[0]) then Stored(es[0], n, i) else None
  }

  lemma {:induction false} CollectAllStores(ucs: seq<nat>, es: seq<RawEntry>, i: nat)
    requires i < |ucs|
    ensures CollectAll(ucs, es)[i] == var s := LastStored(es, |ucs|, i); if s.Some? then s.value else ucs[i]
    decreases |es|
  {
    hide Collect, Stored;
    if es != [] {
      CollectAllStores(if IsPart(es[0]) then Collect(ucs, es[0]) else ucs, es[1..], i);
      CollectStores(ucs, es[0], i);
    }
  }

  /** Some place of the buffer was last given a NUL. */
  ghost predicate StoresNul(es: seq<RawEntry>, n: nat) {
    exists i: nat :: i < n && LastStored(es, n, i) == Some(0)
  }

  /** The parts leave a NUL in every buffer exactly when they store one and do not overwrite it. */
  lemma CollectedHasNulIff(es: seq<RawEntry>, n: nat)
    ensures (forall ucs: seq<nat> :: |ucs| == n ==> 0 in CollectAll(ucs, es)) <==> StoresNul(es, n)
  {
    hide CollectAll, LastStored;
    if StoresNul(es, n) {
      var i: nat :| i < n && LastStored(es, n, i) == Some(0);
      forall ucs: seq<nat> | |ucs| == n
        ensures 0 in CollectAll(ucs, es)
      {
        CollectAllStores(ucs, es, i);
      }
    } else {
      var ones: seq<nat> := seq(n, i => 1);
      forall i: nat | i < n
        ensures CollectAll(ones, es)[i] != 0
      {
        CollectAllStores(ones, es, i);
      }
      assert |ones| == n && 0 !in CollectAll(ones, es);
    }
  }

  // ----- one call of `dir_next` --------------------------------------------------------------

  /** From `off` on, entries that `dir_next` passes over. */
  ghost predicate Passes(v: Volume, card: Card, f: File, off: nat, es: seq<RawEntry>)
    requires WellFormed(v, card, f)
    decreases |es|
  {
    es != [] ==>
      && off + ENTRY_LEN <= f.length && EntryAt(v, card, f, off) == es[0] && PassedOver(es[0])
      && Passes(v, card, f, off + ENTRY_LEN, es[1..])
  }

  /** Whether a part was the last entry passed over. */
  predicate EndsInPart(es: seq<RawEntry>, hasLFN: bool) {
    if es == [] then hasLFN else IsPart(es[|es| - 1])
  }

  lemma StepPasses(e: RawEntry, hasLFN: bool, ucs: seq<nat>)
    requires PassedOver(e)
    ensures FatDirectory.Step(e, DEFAULT_FLAGS, hasLFN, Some(ucs)) ==
            Skip(IsPart(e), Some(if IsPart(e) then Collect(ucs, e) else ucs))
  {
    hide Collect;
  }

  /** What a call makes of the entries it passes over and the live entry it returns. */
  lemma {:induction false} NextPasses(
    v: Volume, card: Card, c: Cache, f: File, p: Pos, es: seq<RawEntry>, hasLFN: bool, ucs: seq<nat>)
    requires WellFormed(v, card, f) && PosOk(v, f, p) && c.Valid() && c.Agrees(card)
    requires Steady(v, card, c, p, |es| + 1) && Passes(v, card, f, p.offset, es)
    requires p.offset + ENTRY_LEN * (|es| + 1) <= f.length && IsLive(EntryAt(v, card, f, p.offset + ENTRY_LEN * |es|))
    ensures p.offset <= p.length
    ensures var r := Next(v, card, c, p, DEFAULT_FLAGS, hasLFN, Some(ucs));
            var e := EntryAt(v, card, f, p.offset + ENTRY_LEN * |es|);
            var lfn, collected := EndsInPart(es, hasLFN), CollectAll(ucs, es);
            && r.entry == Some(Decode(e, lfn))
            && r.ucs == Some(if lfn then collected else GenerateLfn(collected, ShortName(e), e[8..11]))
    decreases |es|
  {
    hide WellFormed, PosOk, Steady, Read, Next, FatDirectory.Step, Bytes, Collect, GenerateLfn, IsLive, PassedOver, Decode, ShortName;
    PosBounds(v, f, p);
    var e := EntryAt(v, card, f, p.offset);
    var r := NextUnfolds(v, card, c, f, p, |es| + 1, hasLFN, ucs);
    if es == [] {
      assert p.offset + ENTRY_LEN * 0 == p.offset;
      StepReturns(e, hasLFN, ucs);
    } else {
      StepPasses(e, hasLFN, ucs);
      PassedIsUsed(e);
      assert p.offset + ENTRY_LEN + ENTRY_LEN * (|es| - 1) == p.offset + ENTRY_LEN * |es|;
      NextPasses(v, card, r.cache, f, r.pos, es[1..], IsPart(e), if IsPart(e) then Collect(ucs, e) else ucs);
    }
  }

  lemma PassedIsUsed(e: RawEntry)
    requires PassedOver(e)
    ensures e[0] != 0
  {
  }

  lemma StepReturns(e: RawEntry, hasLFN: bool, ucs: seq<nat>)
    requires IsLive(e)
    ensures FatDirectory.Step(e, DEFAULT_FLAGS, hasLFN, Some(ucs)) ==
            Deliver(Decode(e, hasLFN), Some(if hasLFN then ucs else GenerateLfn(ucs, ShortName(e), e[8..11])))
  {
    hide GenerateLfn;
  }

  lemma GeneratedHasNul(ucs: seq<nat>, base: seq<byte>, ext: seq<byte>)
    requires |base| == 8 && |ext| == 3 && |ucs| == 256
    ensures 0 in GenerateLfn(ucs, base, ext)
  {
    var long := ShortAsLong(base, ext);
    assert GenerateLfn(ucs, base, ext)[|long|] == 0;
  }

  /** With a full-size buffer, the name that `dir_next` returns holds a NUL whatever the buffer held
      before, exactly when the entry has no long name or the parts passed over in this call store a NUL
      and do not overwrite it. */
  lemma DirNextHasNulIff(v: Volume, card: Card, c: Cache, f: File, p: Pos, es: seq<RawEntry>)
    requires WellFormed(v, card, f) && PosOk(v, f, p) && c.Valid() && c.Agrees(card)
    requires Steady(v, card, c, p, |es| + 1) && Passes(v, card, f, p.offset, es)
    requires p.offset + ENTRY_LEN * (|es| + 1) <= f.length && IsLive(EntryAt(v, card, f, p.offset + ENTRY_LEN * |es|))
    ensures p.offset <= p.length
    ensures (forall ucs: seq<nat> :: |ucs| == 256 ==>
               0 in Next(v, card, c, p, DEFAULT_FLAGS, false, Some(ucs)).ucs.value) <==>
            !EndsInPart(es, false) || StoresNul(es, 256)
  {
    hide WellFormed, PosOk, Steady, Read, Next, Bytes, GenerateLfn, IsLive, Decode, ShortName, CollectAll, StoresNul, Passes;
    PosBounds(v, f, p);
    var e := EntryAt(v, card, f, p.offset + ENTRY_LEN * |es|);
    forall ucs: seq<nat> | |ucs| == 256
      ensures 0 in Next(v, card, c, p, DEFAULT_FLAGS, false, Some(ucs)).ucs.value <==>
              !EndsInPart(es, false) || 0 in CollectAll(ucs, es)
    {
      NextPasses(v, card, c, f, p, es, false, ucs);
      if !EndsInPart(es, false) {
        GeneratedHasNul(CollectAll(ucs, es), ShortName(e), e[8..11]);
      }
    }
    CollectedHasNulIff(es, 256);
    if !StoresNul(es, 256) && EndsInPart(es, false) {
      var ucs: seq<nat> :| |ucs| == 256 && 0 !in CollectAll(ucs, es);
    }
  }

  // ----- comparing names ---------------------------------------------------------------------

  /** A NUL-terminated name's characters. */
  function CharOf(name: seq<nat>, i: nat): nat {
    if i < |name| then name[i] else 0
  }

  ghost predicate AgreeUpTo(ucs: seq<nat>, name: seq<nat>, n: nat) {
    n <= |ucs| && forall i: nat :: i < n ==> ucs[i] == CharOf(name, i)
  }

  /** Whether the loop of `ucs2_compare`, from place `i` on, reads past the buffer. */
  predicate ReadsPast(ucs: seq<nat>, name: seq<nat>, len: nat, i: nat)
    requires i <= |ucs|
    decreases |ucs| - i
  {
    if i >= len then false
    else if i == |ucs| then true
    else if ucs[i] == 0 || ucs[i] != CharOf(name, i) then false
    else ReadsPast(ucs, name, len, i + 1)
  }

  /** The name is at least as long as the buffer and begins with all of it. */
  ghost predicate Overruns(ucs: seq<nat>, name: seq<nat>, len: nat) {
    len > |ucs| && |name| >= |ucs| && ucs == name[..|ucs|]
  }

  lemma {:induction false} ReadsPastFrom(ucs: seq<nat>, name: seq<nat>, len: nat, i: nat)
    requires IsSearchName(name) && i <= |ucs| && i <= |name| && forall k :: 0 <= k < i ==> ucs[k] == name[k]
    ensures ReadsPast(ucs, name, len, i) <==> Overruns(ucs, name, len)
    decreases |ucs| - i
  {
    if i == |ucs| {
      assert ucs == name[..i];
    } else if i < len && i < |name| && ucs[i] == name[i] {
      ReadsPastFrom(ucs, name, len, i + 1);
    }
  }

  /** The comparison leaves the buffer exactly then. */
  lemma ReadsPastIff(ucs: seq<nat>, name: seq<nat>, len: nat)
    requires IsSearchName(name)
    ensures ReadsPast(ucs, name, len, 0) <==> Overruns(ucs, name, len)
  {
    ReadsPastFrom(ucs, name, len, 0);
  }

  /** No comparison of a search leaves the buffer. */
  ghost predicate StaysInside(v: Volume, card: Card, c: Cache, p: Pos, name: seq<nat>, hasLFN: bool, ucs: seq<nat>)
    requires c.Valid() && p.offset <= p.length
    decreases p.length - p.offset
  {
    var r := Next(v, card, c, p, DEFAULT_FLAGS, hasLFN, Some(ucs));
    r.entry.Some? ==>
      && !ReadsPast(r.ucs.value, name, TWO32 - 1, 0)
      && (!Holds(r.ucs.value, name) ==> StaysInside(v, card, r.cache, r.pos, name, false, r.ucs.value))
  }

  /** None does for a name shorter than the buffer, whatever the directory holds. */
  lemma {:induction false} ShorterNameStaysInside(
    v: Volume, card: Card, c: Cache, p: Pos, name: seq<nat>, hasLFN: bool, ucs: seq<nat>)
    requires c.Valid() && p.offset <= p.length && IsSearchName(name) && |name| < |ucs|
    ensures StaysInside(v, card, c, p, name, hasLFN, ucs)
    decreases p.length - p.offset
  {
    hide Next, Holds, ReadsPast, IsSearchName;
    var r := Next(v, card, c, p, DEFAULT_FLAGS, hasLFN, Some(ucs));
    if r.entry.Some? {
      ReadsPastIff(r.ucs.value, name, TWO32 - 1);
      ShorterNameStaysInside(v, card, r.cache, r.pos, name, false, r.ucs.value);
    }
  }
}
