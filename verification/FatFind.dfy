/** Finding an object by name: `dir_find` over a listed directory. */
module FatFind {
  import opened Words
  import opened BlockCache
  import opened FatVolume
  import opened FatRead
  import opened FatDirectory

  /** A name buffer holds a name: its characters, then a NUL. */
  predicate Holds(ucs: seq<nat>, name: seq<nat>) {
    |name| < |ucs| && ucs[..|name|] == name && ucs[|name|] == 0
  }

  /** The loop of `dir_find`; `hasLFN` is false at each call of `dir_next`. */
  function Find(v: Volume, card: Card, c: Cache, p: Pos, name: seq<nat>, hasLFN: bool, ucs: seq<nat>): (r: DirResult)
    requires c.Valid() && p.offset <= p.length
    ensures r.cache.Valid() && r.pos.length == p.length && r.pos.offset <= p.length
    ensures r.ucs.Some? && |r.ucs.value| == |ucs|
    ensures r.entry.Some? ==> Holds(r.ucs.value, name)
    decreases p.length - p.offset
  {
    var r := Next(v, card, c, p, DEFAULT_FLAGS, hasLFN, Some(ucs));
    if r.entry.None? || Holds(r.ucs.value, name) then r
    else Find(v, card, r.cache, r.pos, name, false, r.ucs.value)
  }

  // ----- listed directories ------------------------------------------------------------------

  /** An entry to be passed over (deleted, a volume label, a dot entry, a stray long-name entry), an
      object with a long name, or an object with an 8.3 name only. */
  datatype Item = Gap | Object(name: seq<nat>) | Short(base: seq<byte>, ext: seq<byte>)

  /** An entry in use that `dir_next` passes over. */
  ghost predicate PassedOver(e: RawEntry) {
    e[0] != 0 && (e[0xb] == 0x0f || e[0] == 0x2e || e[0] == 0xe5 || e[0xb] as int / 8 % 2 == 1)
  }

  /** How many directory entries an item takes. */
  function EntryCount(item: Item): (n: nat)
    ensures n >= 1
  {
    if item.Object? then LfnCount(item.name) + 1 else 1
  }

  function EntryTotal(items: seq<Item>): nat {
    if items == [] then 1 else EntryCount(items[0]) + EntryTotal(items[1..])
  }

  /** From `off` on, the directory holds these items and then its end marker.  An 8.3 object must not
      follow a stray long-name entry, which `hasLFN` remembers. */
  ghost predicate Lists(v: Volume, card: Card, f: File, off: nat, items: seq<Item>, hasLFN: bool)
    requires WellFormed(v, card, f)
    decreases |items|
  {
    if items == [] then off + ENTRY_LEN <= f.length && EntryAt(v, card, f, off)[0] == 0
    else
      match items[0]
      case Gap =>
        && off + ENTRY_LEN <= f.length && PassedOver(EntryAt(v, card, f, off))
        && Lists(v, card, f, off + ENTRY_LEN, items[1..], EntryAt(v, card, f, off)[0xb] == 0x0f)
      case Object(name) =>
        && IsName(name) && NamedEntryAt(v, card, f, name, off, LfnCount(name))
        && Lists(v, card, f, off + ENTRY_LEN * (LfnCount(name) + 1), items[1..], false)
      case Short(base, ext) =>
        && !hasLFN && off + ENTRY_LEN <= f.length && ShortEntry(EntryAt(v, card, f, off), base, ext)
        && Lists(v, card, f, off + ENTRY_LEN, items[1..], false)
  }

  /** A live entry of that 8.3 name. */
  ghost predicate ShortEntry(e: RawEntry, base: seq<byte>, ext: seq<byte>) {
    IsLive(e) && ShortName(e) == base && e[8..11] == ext
  }

  /** The name that an item is found by. */
  function NameOf(item: Item): (r: Option<seq<nat>>) {
    match item
    case Gap => None
    case Object(name) => Some(name)
    case Short(base, ext) => if |ext| == 3 then Some(ShortAsLong(base, ext)) else None
  }

  datatype Match = Match(at: nat, long: bool)

  /** Where the short entry of the first object of that name is. */
  function Matching(items: seq<Item>, name: seq<nat>, off: nat): Option<Match> {
    if items == [] then None
    else if NameOf(items[0]) == Some(name) then
      Some(Match(off + ENTRY_LEN * (EntryCount(items[0]) - 1), items[0].Object?))
    else Matching(items[1..], name, off + ENTRY_LEN * EntryCount(items[0]))
  }

  lemma {:induction false} MatchingIffListed(items: seq<Item>, name: seq<nat>, off: nat)
    ensures Matching(items, name, off).Some? <==> exists i :: 0 <= i < |items| && NameOf(items[i]) == Some(name)
  {
    hide NameOf;
    if items != [] {
      var next := off + ENTRY_LEN * EntryCount(items[0]);
      MatchingIffListed(items[1..], name, next);
      assert forall i :: 0 < i < |items| ==> items[i] == items[1..][i - 1];
      if i :| 0 <= i < |items| && NameOf(items[i]) == Some(name) && i > 0 {
        assert NameOf(items[1..][i - 1]) == Some(name);
      }
    }
  }

  lemma StepOnGap(e: RawEntry, hasLFN: bool, ucs: seq<nat>)
    requires PassedOver(e) || e[0] == 0
    ensures var s := FatDirectory.Step(e, DEFAULT_FLAGS, hasLFN, Some(ucs));
            s.Skip? && s.hasLFN == (e[0xb] == 0x0f)
  {
  }

  lemma StepOnShort(e: RawEntry, base: seq<byte>, ext: seq<byte>, ucs: seq<nat>)
    requires ShortEntry(e, base, ext)
    ensures FatDirectory.Step(e, DEFAULT_FLAGS, false, Some(ucs)) ==
            Deliver(Decode(e, false), Some(GenerateLfn(ucs, base, ext)))
  {
    hide GenerateLfn;
  }

  lemma {:induction false} MatchingBounds(
    v: Volume, card: Card, f: File, off: nat, items: seq<Item>, hasLFN: bool, name: seq<nat>)
    requires WellFormed(v, card, f) && Lists(v, card, f, off, items, hasLFN)
    ensures Matching(items, name, off).Some? ==> Matching(items, name, off).value.at + ENTRY_LEN <= f.length
    decreases |items|
  {
    hide WellFormed, IsName, IsLfnPart, IsLive, Bytes, PassedOver, ShortEntry, NameOf;
    if items != [] {
      match items[0]
      case Gap => MatchingBounds(v, card, f, off + ENTRY_LEN, items[1..], EntryAt(v, card, f, off)[0xb] == 0x0f, name);
      case Object(n) => MatchingBounds(v, card, f, off + ENTRY_LEN * (LfnCount(n) + 1), items[1..], false, name);
      case Short(_, _) => MatchingBounds(v, card, f, off + ENTRY_LEN, items[1..], false, name);
    }
  }

  // ----- names -------------------------------------------------------------------------------

  /** A search name, as a NUL-terminated string gives it. */
  ghost predicate IsSearchName(name: seq<nat>) {
    forall i :: 0 <= i < |name| ==> name[i] != 0
  }

  /** A buffer that holds a name holds no other. */
  lemma HeldNameIsUnique(ucs: seq<nat>, n: seq<nat>, name: seq<nat>)
    requires Holds(ucs, n) && IsSearchName(n) && IsSearchName(name)
    ensures Holds(ucs, name) <==> n == name
  {
    assert ucs[..|n|] == n;
  }

  lemma {:induction false} LoweredIsNonzero(s: seq<byte>)
    ensures IsSearchName(Lowered(s))
  {
    if s != [] && s[0] > 0x20 {
      LoweredIsNonzero(s[1..]);
    }
  }

  /** The generated name of an 8.3 entry fits a full-size buffer and is what it is found by. */
  lemma GeneratedNameIsHeld(ucs: seq<nat>, base: seq<byte>, ext: seq<byte>, name: seq<nat>)
    requires |base| == 8 && |ext| == 3 && |ucs| == 256 && IsSearchName(name)
    ensures Holds(GenerateLfn(ucs, base, ext), name) <==> ShortAsLong(base, ext) == name
  {
    hide Lowered;
    LoweredIsNonzero(base);
    LoweredIsNonzero(ext);
    var long := ShortAsLong(base, ext);
    assert |long| <= 12 && IsSearchName(long);
    assert Holds(GenerateLfn(ucs, base, ext), long);
    HeldNameIsUnique(GenerateLfn(ucs, base, ext), long, name);
  }

  lemma AssembledIsHeld(ucs: seq<nat>, n: seq<nat>, name: seq<nat>)
    requires Assembled(ucs, n, 0) && IsName(n) && IsSearchName(name)
    ensures Holds(ucs, name) <==> n == name
  {
    assert ucs[..|n|] == n;
    HeldNameIsUnique(ucs, n, name);
  }

  // ----- the search --------------------------------------------------------------------------

  /** Passing over a gap. */
  lemma FindPassesGap(v: Volume, card: Card, c: Cache, f: File, p: Pos, n: nat, name: seq<nat>, hasLFN: bool, ucs: seq<nat>)
    returns (c': Cache, p': Pos, ucs': seq<nat>)
    requires WellFormed(v, card, f) && PosOk(v, f, p) && p.offset + ENTRY_LEN <= f.length
    requires c.Valid() && c.Agrees(card) && n > 0 && Steady(v, card, c, p, n) && PassedOver(EntryAt(v, card, f, p.offset))
    ensures p.offset <= p.length && p'.offset <= p'.length && c'.Valid() && c'.Agrees(card)
    ensures p'.offset == p.offset + ENTRY_LEN && PosOk(v, f, p') && Steady(v, card, c', p', n - 1) && |ucs'| == |ucs|
    ensures Find(v, card, c, p, name, hasLFN, ucs).entry ==
            Find(v, card, c', p', name, EntryAt(v, card, f, p.offset)[0xb] == 0x0f, ucs').entry
  {
    hide WellFormed, PosOk, Steady, Read, Next, FatDirectory.Step, Bytes, Holds;
    var e := EntryAt(v, card, f, p.offset);
    StepOnGap(e, hasLFN, ucs);
    var r := NextUnfolds(v, card, c, f, p, n, hasLFN, ucs);
    var step := FatDirectory.Step(e, DEFAULT_FLAGS, hasLFN, Some(ucs));
    c', p', ucs' := r.cache, r.pos, step.ucs.value;
  }

  /** What one call of `dir_next` means for the search: the object at this item is found by its name,
      and is otherwise left behind. */
  ghost predicate Decided(v: Volume, card: Card, f: File, c: Cache, p: Pos, n: nat, item: Item, name: seq<nat>,
                          hasLFN: bool, ucs: seq<nat>, r: DirResult)
    requires WellFormed(v, card, f) && c.Valid() && p.offset <= p.length
    requires p.offset + ENTRY_LEN * EntryCount(item) <= f.length && n >= EntryCount(item)
  {
    && r.ucs.Some? && |r.ucs.value| == 256 && r.pos.offset <= r.pos.length
    && r.cache.Valid() && r.cache.Agrees(card) && PosOk(v, f, r.pos)
    && r.pos.offset == p.offset + ENTRY_LEN * EntryCount(item)
    && Steady(v, card, r.cache, r.pos, n - EntryCount(item))
    && Find(v, card, c, p, name, hasLFN, ucs).entry ==
       if NameOf(item) == Some(name) then
         Some(Decode(EntryAt(v, card, f, p.offset + ENTRY_LEN * (EntryCount(item) - 1)), item.Object?))
       else Find(v, card, r.cache, r.pos, name, false, r.ucs.value).entry
  }

  lemma FindAtObject(v: Volume, card: Card, c: Cache, f: File, p: Pos, n: nat, item: Item, name: seq<nat>, hasLFN: bool,
                     ucs: seq<nat>) returns (r: DirResult)
    requires WellFormed(v, card, f) && PosOk(v, f, p) && |ucs| == 256 && item.Object?
    requires c.Valid() && c.Agrees(card) && n >= EntryCount(item) && Steady(v, card, c, p, n)
    requires IsName(item.name) && NamedEntryAt(v, card, f, item.name, p.offset, LfnCount(item.name)) && IsSearchName(name)
    ensures p.offset <= p.length && p.offset + ENTRY_LEN * EntryCount(item) <= f.length
    ensures Decided(v, card, f, c, p, n, item, name, hasLFN, ucs, r)
  {
    hide WellFormed, PosOk, Steady, Read, Next, Bytes, Holds, Decode, Assembled, IsName, IsLfnPart, IsLive, IsSearchName;
    PosBounds(v, f, p);
    var k := LfnCount(item.name);
    NextAssembles(v, card, c, f, p, n, item.name, k, hasLFN, ucs);
    r := Next(v, card, c, p, DEFAULT_FLAGS, hasLFN, Some(ucs));
    AssembledIsHeld(r.ucs.value, item.name, name);
  }

  lemma FindAtShort(v: Volume, card: Card, c: Cache, f: File, p: Pos, n: nat, item: Item, name: seq<nat>, ucs: seq<nat>)
    returns (r: DirResult)
    requires WellFormed(v, card, f) && PosOk(v, f, p) && |ucs| == 256 && item.Short? && p.offset + ENTRY_LEN <= f.length
    requires c.Valid() && c.Agrees(card) && n >= 1 && Steady(v, card, c, p, n)
    requires ShortEntry(EntryAt(v, card, f, p.offset), item.base, item.ext) && IsSearchName(name)
    ensures p.offset <= p.length && Decided(v, card, f, c, p, n, item, name, false, ucs, r)
  {
    hide WellFormed, PosOk, Steady, Read, Next, FatDirectory.Step, Bytes, Holds, Decode, GenerateLfn, ShortAsLong, IsSearchName, IsLive;
    PosBounds(v, f, p);
    var e := EntryAt(v, card, f, p.offset);
    StepOnShort(e, item.base, item.ext, ucs);
    var read := NextUnfolds(v, card, c, f, p, n, false, ucs);
    r := Next(v, card, c, p, DEFAULT_FLAGS, false, Some(ucs));
    GeneratedNameIsHeld(ucs, item.base, item.ext, name);
  }

  lemma FindAtEnd(v: Volume, card: Card, c: Cache, f: File, p: Pos, n: nat, name: seq<nat>, hasLFN: bool, ucs: seq<nat>)
    requires WellFormed(v, card, f) && PosOk(v, f, p) && p.offset + ENTRY_LEN <= f.length
    requires c.Valid() && c.Agrees(card) && n > 0 && Steady(v, card, c, p, n) && EntryAt(v, card, f, p.offset)[0] == 0
    ensures p.offset <= p.length && Find(v, card, c, p, name, hasLFN, ucs).entry == None
  {
    hide WellFormed, PosOk, Steady, Read, Next, FatDirectory.Step, Bytes, Holds;
    StepOnGap(EntryAt(v, card, f, p.offset), hasLFN, ucs);
    var r := NextUnfolds(v, card, c, f, p, n, hasLFN, ucs);
  }

  /** The search gives the first object of the name, long or 8.3, and nothing when no object has it. */
  ghost predicate FoundFirst(
    v: Volume, card: Card, c: Cache, f: File, p: Pos, items: seq<Item>, name: seq<nat>, hasLFN: bool, ucs: seq<nat>)
    requires WellFormed(v, card, f) && c.Valid() && p.offset <= p.length
  {
    var m := Matching(items, name, p.offset);
    && (m.Some? ==> m.value.at + ENTRY_LEN <= f.length)
    && (m.Some? <==> exists i :: 0 <= i < |items| && NameOf(items[i]) == Some(name))
    && Find(v, card, c, p, name, hasLFN, ucs).entry ==
       if m.Some? then Some(Decode(EntryAt(v, card, f, m.value.at), m.value.long)) else None
  }

  /** In every listed directory, whatever is cached, as long as no trip is stale. */
  lemma {:induction false} FindsFirstOfThatName(
    v: Volume, card: Card, c: Cache, f: File, p: Pos, items: seq<Item>, name: seq<nat>, hasLFN: bool, ucs: seq<nat>)
    requires WellFormed(v, card, f) && PosOk(v, f, p) && |ucs| == 256
    requires c.Valid() && c.Agrees(card) && Steady(v, card, c, p, EntryTotal(items))
    requires Lists(v, card, f, p.offset, items, hasLFN) && IsSearchName(name)
    ensures p.offset <= p.length && FoundFirst(v, card, c, f, p, items, name, hasLFN, ucs)
    decreases |items|
  {
    hide WellFormed, PosOk, Steady, Bytes, NamedEntryAt, Decode, IsName, Find, PassedOver, ShortEntry, IsSearchName, NameOf;
    PosBounds(v, f, p);
    MatchingBounds(v, card, f, p.offset, items, hasLFN, name);
    MatchingIffListed(items, name, p.offset);
    var n := EntryTotal(items);
    if items == [] {
      FindAtEnd(v, card, c, f, p, n, name, hasLFN, ucs);
    } else {
      var item := items[0];
      match item
      case Gap =>
        GapHasNoName(item);
        var c', p', ucs' := FindPassesGap(v, card, c, f, p, n, name, hasLFN, ucs);
        FindsFirstOfThatName(v, card, c', f, p', items[1..], name, EntryAt(v, card, f, p.offset)[0xb] == 0x0f, ucs');
      case Object(_) =>
        var r := FindAtObject(v, card, c, f, p, n, item, name, hasLFN, ucs);
        if NameOf(item) != Some(name) {
          FindsFirstOfThatName(v, card, r.cache, f, r.pos, items[1..], name, false, r.ucs.value);
        }
      case Short(_, _) =>
        var r := FindAtShort(v, card, c, f, p, n, item, name, ucs);
        if NameOf(item) != Some(name) {
          FindsFirstOfThatName(v, card, r.cache, f, r.pos, items[1..], name, false, r.ucs.value);
        }
    }
  }

  lemma GapHasNoName(item: Item)
    requires item.Gap?
    ensures NameOf(item).None?
  {
  }

  /** A directory whose end marker lies before its first cluster boundary: every lookup, the first or a
      later one, through any cache that agrees with the medium. */
  lemma FindsInOneCluster(v: Volume, card: Card, c: Cache, f: File, p: Pos, items: seq<Item>, name: seq<nat>, ucs: seq<nat>)
    requires WellFormed(v, card, f) && PosOk(v, f, p) && |ucs| == 256 && p.offset == 0
    requires c.Valid() && c.Agrees(card) && ENTRY_LEN * EntryTotal(items) < v.ClusterBytes()
    requires Lists(v, card, f, 0, items, false) && IsSearchName(name)
    ensures p.offset <= p.length && FoundFirst(v, card, c, f, p, items, name, false, ucs)
  {
    hide WellFormed, PosOk, Steady, Lists, FoundFirst, EntryTotal, IsSearchName;
    WithinClusterIsSteady(v, card, c, p, EntryTotal(items));
    FindsFirstOfThatName(v, card, c, f, p, items, name, false, ucs);
  }
}
