/** Directory traversal: `dir_next` with its long-filename assembly. */
module FatDirectory {
  import opened Words
  import opened BlockCache
  import opened FatVolume
  import opened FatRead

  const ENTRY_LEN: nat := 32

  type RawEntry = e: seq<byte> | |e| == ENTRY_LEN witness seq(ENTRY_LEN, i => 0)

  datatype DirFlags = DirFlags(raw: bool, includeDeleted: bool, includeHidden: bool)

  datatype DirEntry = DirEntry(
    deleted: bool, volumeLabel: bool, subdirectory: bool, hasLongName: bool,
    entryType: byte, shortName: seq<byte>, shortExt: seq<byte>, attribs: byte,
    firstCluster: nat, dataLength: nat)

  // ----- one entry ---------------------------------------------------------------------------

  /** The thirteen UCS-2 characters of a long-name entry are scattered over three runs. */
  function LfnChar(e: RawEntry, k: nat): nat
    requires k < 13
  {
    if k < 5 then Read16le(e, 1 + 2 * k)
    else if k < 11 then Read16le(e, 0xe + 2 * (k - 5))
    else Read16le(e, 0x1c + 2 * (k - 11))
  }

  function LfnChars(e: RawEntry, n: nat): (s: seq<nat>)
    requires n <= 13
    ensures |s| == n
  {
    seq(n, k requires 0 <= k < n => LfnChar(e, k))
  }

  function SeqNumber(e: RawEntry): nat {
    e[0] as int % 0x20
  }

  predicate LastLogical(e: RawEntry) {
    e[0] as int / 0x40 % 2 == 1
  }

  /** The characters that one long-name entry stores into a name buffer, at their offset. */
  function Collect(ucs: seq<nat>, e: RawEntry): (r: seq<nat>)
    ensures |r| == |ucs|
  {
    var seqNumber := SeqNumber(e);
    if !(1 <= seqNumber <= 0x14) then ucs
    else
      var offset := (seqNumber - 1) * 13;
      if offset >= |ucs| then ucs
      else
        var full := if LastLogical(e) && seqNumber >= 0x14 then 9 else 13;
        var len := if offset + full > |ucs| then |ucs| - offset else full;
        var copied := ucs[..offset] + LfnChars(e, len) + ucs[offset + len..];
        if LastLogical(e) && |ucs| - offset > len then copied[offset + len := 0] else copied
  }

  function AsLowerCase(ch: byte): nat {
    if 'A' as int <= ch as int <= 'Z' as int then ch as int - 'A' as int + 'a' as int else ch as int
  }

  /** The leading characters above a space, in lower case. */
  function Lowered(s: seq<byte>): (r: seq<nat>)
    ensures |r| <= |s|
  {
    if s == [] || s[0] <= 0x20 then [] else [AsLowerCase(s[0])] + Lowered(s[1..])
  }

  /** The name an 8.3 entry gets when it has no long name. */
  function ShortAsLong(name: seq<byte>, ext: seq<byte>): seq<nat>
    requires |ext| > 0
  {
    Lowered(name) + (if ext[0] > 0x20 then ['.' as int] else []) + Lowered(ext)
  }

  lemma {:induction false} LoweredStops(s: seq<byte>, i: nat)
    requires i <= |s| && (i == |s| || s[i] <= 0x20) && forall j :: 0 <= j < i ==> s[j] > 0x20
    ensures |Lowered(s)| == i
  {
    if i > 0 {
      LoweredStops(s[1..], i - 1);
    }
  }

  lemma {:induction false} LoweredAt(s: seq<byte>, i: nat)
    requires i < |s| && forall j :: 0 <= j <= i ==> s[j] > 0x20
    ensures i < |Lowered(s)| && Lowered(s)[i] == AsLowerCase(s[i])
  {
    if i > 0 {
      LoweredAt(s[1..], i - 1);
    }
  }

  /** Characters with the capital letters 0x41 to 0x5a raised by 0x20. */
  function SmallLetters(s: seq<byte>): (r: seq<nat>)
    ensures |r| == |s|
  {
    seq(|s|, i requires 0 <= i < |s| => if 0x41 <= s[i] as int <= 0x5a then s[i] as int + 0x20 else s[i] as int)
  }

  lemma LoweredIsSmall(s: seq<byte>, stem: seq<byte>)
    requires stem <= s && (forall i :: 0 <= i < |stem| ==> stem[i] > 0x20) && (|stem| < |s| ==> s[|stem|] <= 0x20)
    ensures Lowered(s) == SmallLetters(stem)
  {
    hide Lowered;
    LoweredStops(s, |stem|);
    forall i | 0 <= i < |stem|
      ensures Lowered(s)[i] == SmallLetters(stem)[i]
    {
      LoweredAt(s, i);
    }
  }

  /** An 8.3 name padded with spaces: "README  " and "TXT" give "readme.txt", and a blank extension gives
      no period. */
  lemma PaddedShortName(base: seq<byte>, ext: seq<byte>, stem: seq<byte>, suffix: seq<byte>)
    requires |base| == 8 && |ext| == 3 && stem <= base && suffix <= ext
    requires forall i :: 0 <= i < |stem| ==> stem[i] > 0x20
    requires forall i :: 0 <= i < |suffix| ==> suffix[i] > 0x20
    requires forall i :: |stem| <= i < 8 ==> base[i] == 0x20
    requires forall i :: |suffix| <= i < 3 ==> ext[i] == 0x20
    ensures ShortAsLong(base, ext) == SmallLetters(stem) + (if suffix == [] then [] else [0x2e]) + SmallLetters(suffix)
  {
    hide Lowered, SmallLetters;
    LoweredIsSmall(base, stem);
    LoweredIsSmall(ext, suffix);
  }

  /** As much of `s` as fits, written over the start of `base`. */
  function Overlay(base: seq<nat>, s: seq<nat>): (r: seq<nat>)
    ensures |r| == |base|
  {
    s[..Min(|s|, |base|)] + base[Min(|s|, |base|)..]
  }

  /** `generate_lfn`: as much of that name as fits, then a NUL if there is room. */
  function GenerateLfn(ucs: seq<nat>, name: seq<byte>, ext: seq<byte>): (r: seq<nat>)
    requires |ext| > 0
    ensures |r| == |ucs|
  {
    var long := ShortAsLong(name, ext);
    var copied := Overlay(ucs, long);
    if |long| < |ucs| then copied[|long| := 0] else copied
  }

  function IncludeEntry(d: DirEntry, flags: DirFlags): bool {
    (!d.deleted || flags.includeDeleted) && !d.volumeLabel
  }

  function ShortName(e: RawEntry): (s: seq<byte>)
    ensures |s| == 8
  {
    var s := if e[0] == 0xe5 then e[..8][0 := e[0xd]] else e[..8];
    if s[0] == 0x05 then s[0 := 0xe5] else s
  }

  function Decode(e: RawEntry, hasLFN: bool): DirEntry {
    DirEntry(e[0] == 0xe5, e[0xb] as int / 8 % 2 == 1, e[0xb] as int / 0x10 % 2 == 1, hasLFN,
             e[0], ShortName(e), e[8..11], e[0xb],
             (Read16le(e, 0x14) as int * 0x1_0000 + Read16le(e, 0x1a) as int) % 0x1000_0000,
             Read32le(e, 0x1c))
  }

  /** The bytes of a short entry: an 8.3 name as it is stored, the attributes, the first cluster in two
      halves with a reserved upper nibble, the length, and the twelve bytes of the times between them. */
  function EncodeShort(base: seq<byte>, ext: seq<byte>, attribs: byte, cluster: nat, reserved: nat, length: nat, times: seq<byte>)
    : RawEntry
    requires |base| == 8 && |ext| == 3 && |times| == 12
    requires cluster < 0x1000_0000 && reserved < 0x10 && length < TWO32
  {
    base + ext + [attribs] + times[..8]
    + [cluster / 0x1_0000 % 0x100, cluster / 0x100_0000 + 0x10 * reserved]
    + times[8..]
    + [cluster % 0x100, cluster / 0x100 % 0x100]
    + [length % 0x100, length / 0x100 % 0x100, length / 0x1_0000 % 0x100, length / 0x100_0000]
  }

  lemma Halves(cluster: nat, reserved: nat)
    requires cluster < 0x1000_0000 && reserved < 0x10
    ensures ((cluster / 0x1_0000 % 0x100 + 0x100 * (cluster / 0x100_0000 + 0x10 * reserved)) * 0x1_0000
             + (cluster % 0x100 + 0x100 * (cluster / 0x100 % 0x100))) % 0x1000_0000 == cluster
  {
    FourBytes(cluster);
    assert ((cluster / 0x1_0000 % 0x100 + 0x100 * (cluster / 0x100_0000 + 0x10 * reserved)) * 0x1_0000
            + (cluster % 0x100 + 0x100 * (cluster / 0x100 % 0x100))) == cluster + 0x1000_0000 * reserved;
  }

  lemma FourBytes(n: nat)
    ensures n == n % 0x100 + 0x100 * (n / 0x100 % 0x100) + 0x1_0000 * (n / 0x1_0000 % 0x100) + 0x100_0000 * (n / 0x100_0000)
  {
    assert n / 0x100 / 0x100 == n / 0x1_0000 && n / 0x1_0000 / 0x100 == n / 0x100_0000;
  }

  /** `dir_next` gives back what a short entry holds: every name, attribute byte, cluster below 2^28 and
      length.  A deleted entry's first character comes from its creation time, and 0x05 stands for 0xe5. */
  lemma DecodeGivesBack(base: seq<byte>, ext: seq<byte>, attribs: byte, cluster: nat, reserved: nat, length: nat, times: seq<byte>,
                        hasLFN: bool)
    requires |base| == 8 && |ext| == 3 && |times| == 12
    requires cluster < 0x1000_0000 && reserved < 0x10 && length < TWO32
    ensures var d := Decode(EncodeShort(base, ext, attribs, cluster, reserved, length, times), hasLFN);
            && d.firstCluster == cluster && d.dataLength == length
            && d.shortExt == ext && d.attribs == attribs && d.entryType == base[0] && d.hasLongName == hasLFN
            && (d.volumeLabel <==> attribs as int / 8 % 2 == 1) && (d.subdirectory <==> attribs as int / 0x10 % 2 == 1)
            && (d.deleted <==> base[0] == 0xe5)
            && |d.shortName| == 8 && d.shortName[1..] == base[1..]
            && d.shortName[0] == if base[0] == 0x05 || (base[0] == 0xe5 && times[1] == 0x05) then 0xe5
                                 else if base[0] == 0xe5 then times[1] else base[0]
  {
    var e := EncodeShort(base, ext, attribs, cluster, reserved, length, times);
    assert e[..8] == base && e[8..11] == ext && e[0xb] == attribs && e[0xd] == times[1];
    Halves(cluster, reserved);
    FourBytes(length);
  }

  /** Its first cluster and its length, byte by byte. */
  lemma DecodedNumbers(e: RawEntry, hasLFN: bool)
    ensures Decode(e, hasLFN).firstCluster ==
            e[0x1a] as int + 0x100 * e[0x1b] as int + 0x1_0000 * e[0x14] as int + 0x100_0000 * (e[0x15] as int % 0x10)
    ensures Decode(e, hasLFN).dataLength ==
            e[0x1c] as int + 0x100 * e[0x1d] as int + 0x1_0000 * e[0x1e] as int + 0x100_0000 * e[0x1f] as int
  {
    MaskedWord(e[0x1a], e[0x1b], e[0x14], e[0x15]);
  }

  datatype DirStep = Skip(hasLFN: bool, ucs: Option<seq<nat>>) | Deliver(entry: DirEntry, ucs: Option<seq<nat>>)

  /** What `dir_next` does with one entry. */
  function Step(e: RawEntry, flags: DirFlags, hasLFN: bool, ucs: Option<seq<nat>>): (r: DirStep)
    ensures ucs.Some? <==> r.ucs.Some?
    ensures ucs.Some? ==> |r.ucs.value| == |ucs.value|
  {
    var d := Decode(e, hasLFN);
    if !flags.raw && e[0xb] == 0x0f then
      Skip(true, if ucs.Some? then Some(Collect(ucs.value, e)) else None)
    else if !flags.raw && !(e[0] != 0 && e[0] != 0x2e && IncludeEntry(d, flags)) then Skip(false, ucs)
    else Deliver(d, if ucs.Some? && !hasLFN then Some(GenerateLfn(ucs.value, d.shortName, d.shortExt)) else ucs)
  }

  // ----- the traversal -----------------------------------------------------------------------

  /** `entries` counts the directory entries taken from the object. */
  datatype DirResult = DirResult(cache: Cache, pos: Pos, ucs: Option<seq<nat>>, entry: Option<DirEntry>, entries: nat)

  /** The loop of `dir_next` on a valid handle.  It ends for every medium: each trip takes 32 of the
      bytes below the object's length. */
  function Next(v: Volume, card: Card, c: Cache, p: Pos, flags: DirFlags, hasLFN: bool, ucs: Option<seq<nat>>): (r: DirResult)
    requires c.Valid() && p.offset <= p.length
    ensures r.cache.Valid() && r.pos.length == p.length && r.pos.offset <= p.length
    ensures r.pos.offset >= p.offset + ENTRY_LEN * r.entries && (r.entry.Some? ==> r.entries > 0)
    ensures ucs.Some? <==> r.ucs.Some?
    ensures ucs.Some? ==> |r.ucs.value| == |ucs.value|
    decreases p.length - p.offset
  {
    var r := Read(v, card, c, p, ENTRY_LEN);
    if |r.bytes| != ENTRY_LEN then DirResult(r.cache, r.pos, ucs, None, 0)
    else
      match Step(r.bytes, flags, hasLFN, ucs)
      case Deliver(d, ucs') => DirResult(r.cache, r.pos, ucs', Some(d), 1)
      case Skip(lfn, ucs') =>
        if r.bytes[0] == 0 then DirResult(r.cache, r.pos, ucs', None, 1)
        else
          var rest := Next(v, card, r.cache, r.pos, flags, lfn, ucs');
          rest.(entries := rest.entries + 1)
  }

  /** One call in the life of a directory handle; the medium may differ from call to call. */
  datatype Call = Call(card: Card, flags: DirFlags, ucs: Option<seq<nat>>)

  /** The entries taken by a whole sequence of calls on one handle. */
  function EntriesTaken(v: Volume, c: Cache, p: Pos, calls: seq<Call>): nat
    requires c.Valid() && p.offset <= p.length
    decreases |calls|
  {
    if calls == [] then 0
    else
      var r := Next(v, calls[0].card, c, p, calls[0].flags, false, calls[0].ucs);
      r.entries + EntriesTaken(v, r.cache, r.pos, calls[1..])
  }

  /** Whatever the medium holds, cyclic or truncated chains included, a handle from `dir_open` takes
      at most (2^32 - 1) / 32 entries in its life. */
  lemma {:induction false} EntriesAreBounded(v: Volume, c: Cache, p: Pos, calls: seq<Call>)
    requires c.Valid() && p.offset <= p.length < TWO32
    ensures EntriesTaken(v, c, p, calls) <= (p.length - p.offset) / ENTRY_LEN
    ensures EntriesTaken(v, c, p, calls) <= (TWO32 - 1) / ENTRY_LEN
    decreases |calls|
  {
    hide Next;
    if calls != [] {
      var r := Next(v, calls[0].card, c, p, calls[0].flags, false, calls[0].ucs);
      EntriesAreBounded(v, r.cache, r.pos, calls[1..]);
    }
  }

  // ----- long names --------------------------------------------------------------------------

  /** A name's characters followed by a NUL and then 0xffff padding. */
  function Padded(name: seq<nat>, i: nat): nat {
    if i < |name| then name[i] else if i == |name| then 0 else 0xffff
  }

  ghost predicate IsName(name: seq<nat>) {
    1 <= |name| <= 255 && forall i :: 0 <= i < |name| ==> 0 < name[i] < 0x1_0000
  }

  /** How many long-name entries a name takes. */
  function LfnCount(name: seq<nat>): (n: nat)
    ensures name != [] ==> 13 * (n - 1) < |name| <= 13 * n
  {
    (|name| + 12) / 13
  }

  /** Where a long-name entry keeps its thirteen characters, low byte first. */
  const LFN_PLACES: seq<nat> := [1, 3, 5, 7, 9, 0xe, 0x10, 0x12, 0x14, 0x16, 0x18, 0x1c, 0x1e]

  /** A standard long-name entry, byte by byte: part `k` of the name. */
  ghost predicate IsLfnPart(e: RawEntry, name: seq<nat>, k: nat)
    requires k >= 1
  {
    && e[0] as int == k + (if k == LfnCount(name) then 0x40 else 0)
    && e[0xb] == 0x0f
    && forall j :: 0 <= j < 13 ==>
         e[LFN_PLACES[j]] as int + 0x100 * e[LFN_PLACES[j] + 1] as int == Padded(name, (k - 1) * 13 + j)
  }

  /** The low and high bytes of `n` characters of the padded name. */
  function CharBytes(name: seq<nat>, from: nat, n: nat): (s: seq<byte>)
    requires IsName(name)
    ensures |s| == 2 * n
  {
    seq<byte>(2 * n, i requires 0 <= i < 2 * n =>
      var c := Padded(name, from + i / 2);
      if i % 2 == 0 then c % 0x100 else c / 0x100)
  }

  /** The bytes of part `k` of a name. */
  function EncodeLfn(name: seq<nat>, k: nat, checksum: byte): RawEntry
    requires IsName(name) && 1 <= k <= LfnCount(name)
  {
    var from := (k - 1) * 13;
    [k + (if k == LfnCount(name) then 0x40 else 0)] + CharBytes(name, from, 5) + [0x0f, 0, checksum]
    + CharBytes(name, from + 5, 6) + [0, 0] + CharBytes(name, from + 11, 2)
  }

  /** So every name of 1 to 255 characters has its standard entries. */
  lemma EncodedIsPart(name: seq<nat>, k: nat, checksum: byte)
    requires IsName(name) && 1 <= k <= LfnCount(name)
    ensures IsLfnPart(EncodeLfn(name, k, checksum), name, k)
  {
    hide CharBytes;
    var e, from := EncodeLfn(name, k, checksum), (k - 1) * 13;
    forall j | 0 <= j < 13
      ensures e[LFN_PLACES[j]] as int + 0x100 * e[LFN_PLACES[j] + 1] as int == Padded(name, from + j)
    {
      if j < 5 {
        CharBytesAt(name, from, 5, j);
      } else if j < 11 {
        CharBytesAt(name, from + 5, 6, j - 5);
      } else {
        CharBytesAt(name, from + 11, 2, j - 11);
      }
    }
  }

  lemma CharBytesAt(name: seq<nat>, from: nat, n: nat, j: nat)
    requires IsName(name) && j < n
    ensures var s := CharBytes(name, from, n);
            s[2 * j] as int + 0x100 * s[2 * j + 1] as int == Padded(name, from + j)
  {
  }

  /** A part's first byte: its number in five bits, and the mark of the last part in the seventh. */
  lemma PartNumber(e: RawEntry, number: nat, unused: nat, last: nat, erased: nat)
    requires number < 0x20 && unused < 2 && last < 2 && erased < 2
    requires e[0] as int == number + 0x20 * unused + 0x40 * last + 0x80 * erased
    ensures SeqNumber(e) == number && (LastLogical(e) <==> last == 1)
  {
  }

  lemma LfnCharAt(e: RawEntry, j: nat)
    requires j < 13
    ensures LfnChar(e, j) == e[LFN_PLACES[j]] as int + 0x100 * e[LFN_PLACES[j] + 1] as int
  {
  }

  /** A short entry that is in use, is not the dot entries and is not a volume label. */
  ghost predicate IsLive(e: RawEntry) {
    && e[0] != 0 && e[0] != 0x2e && e[0] != 0xe5
    && e[0xb] != 0x0f && e[0xb] as int / 8 % 2 == 0
  }

  /** Parts above `k` are in the buffer, and the name's NUL with them. */
  ghost predicate Assembled(ucs: seq<nat>, name: seq<nat>, k: nat) {
    && |ucs| == 256 && |name| < 256
    && (forall i :: k * 13 <= i < |name| ==> ucs[i] == name[i])
    && ucs[|name|] == 0
  }

  /** Where an entry's characters go. */
  lemma CollectAt(ucs: seq<nat>, e: RawEntry, name: seq<nat>, k: nat)
    requires IsName(name) && |ucs| == 256 && 1 <= k <= LfnCount(name) && IsLfnPart(e, name, k)
    ensures var r := Collect(ucs, e);
            && (forall i :: (k - 1) * 13 <= i < Min(k * 13, 256) ==> r[i] == Padded(name, i))
            && (forall i :: k * 13 <= i < 256 && !(k == LfnCount(name) && i == k * 13) ==> r[i] == ucs[i])
            && (k == LfnCount(name) && k * 13 < 256 ==> r[k * 13] == 0)
  {
    hide LfnChar;
    assert SeqNumber(e) == k && (LastLogical(e) <==> k == LfnCount(name));
    var r, offset := Collect(ucs, e), (k - 1) * 13;
    var len := if k == 20 then 9 else 13;
    var chars := LfnChars(e, len);
    forall i | offset <= i < Min(k * 13, 256)
      ensures r[i] == Padded(name, i)
    {
      assert chars[i - offset] == LfnChar(e, i - offset);
      LfnCharAt(e, i - offset);
    }
  }

  /** Collecting part `k` extends an assembled name downwards. */
  lemma CollectAssembles(ucs: seq<nat>, e: RawEntry, name: seq<nat>, k: nat)
    requires IsName(name) && |ucs| == 256 && 1 <= k <= LfnCount(name) && IsLfnPart(e, name, k)
    requires k < LfnCount(name) ==> Assembled(ucs, name, k)
    ensures Assembled(Collect(ucs, e), name, k - 1)
  {
    hide Collect, IsLfnPart;
    CollectAt(ucs, e, name, k);
  }

  /** Entry number `i` of a directory object. */
  ghost function EntryAt(v: Volume, card: Card, f: File, off: nat): RawEntry
    requires WellFormed(v, card, f) && off + ENTRY_LEN <= f.length
  {
    Bytes(v, card, f, off, off + ENTRY_LEN)
  }

  /** At `off`: parts `k`, `k - 1`, ..., 1 of the name, then a live short entry. */
  ghost predicate NamedEntryAt(v: Volume, card: Card, f: File, name: seq<nat>, off: nat, k: nat)
    requires WellFormed(v, card, f)
  {
    && off + ENTRY_LEN * (k + 1) <= f.length
    && (forall j :: 0 <= j < k ==> IsLfnPart(EntryAt(v, card, f, off + ENTRY_LEN * j), name, k - j))
    && IsLive(EntryAt(v, card, f, off + ENTRY_LEN * k))
  }

  /** None of the next `n` entry reads has a stale trip. */
  predicate Steady(v: Volume, card: Card, c: Cache, p: Pos, n: nat)
    requires c.Valid()
    decreases n
  {
    n > 0 ==>
      && NeverStale(v, card, c, p, ENTRY_LEN)
      && var r := Read(v, card, c, p, ENTRY_LEN);
         Steady(v, card, r.cache, r.pos, n - 1)
  }

  /** A directory read without stale trips yields its next entry. */
  lemma ReadEntry(v: Volume, card: Card, c: Cache, f: File, p: Pos, n: nat)
    requires WellFormed(v, card, f) && PosOk(v, f, p) && p.offset + ENTRY_LEN <= f.length
    requires c.Valid() && c.Agrees(card) && n > 0 && Steady(v, card, c, p, n)
    ensures var r := Read(v, card, c, p, ENTRY_LEN);
            && r.bytes == EntryAt(v, card, f, p.offset) && r.pos.offset == p.offset + ENTRY_LEN
            && PosOk(v, f, r.pos) && r.cache.Agrees(card) && Steady(v, card, r.cache, r.pos, n - 1)
  {
    hide WellFormed, PosOk, Read, Harmless, NeverStale, Bytes;
    PosBounds(v, f, p);
    ReadExactlyWhenHarmless(v, card, c, f, p, ENTRY_LEN);
    ReadReturnsFileBytes(v, card, c, f, p, ENTRY_LEN);
  }

  const DEFAULT_FLAGS := DirFlags(false, false, false)

  /** One trip of the traversal over an entry that is read rightly. */
  lemma NextUnfolds(v: Volume, card: Card, c: Cache, f: File, p: Pos, n: nat, hasLFN: bool, ucs: seq<nat>)
    returns (r: ReadResult)
    requires WellFormed(v, card, f) && PosOk(v, f, p) && p.offset + ENTRY_LEN <= f.length
    requires c.Valid() && c.Agrees(card) && n > 0 && Steady(v, card, c, p, n)
    ensures r == Read(v, card, c, p, ENTRY_LEN)
    ensures r.cache.Valid() && r.cache.Agrees(card) && r.pos.offset == p.offset + ENTRY_LEN
    ensures PosOk(v, f, r.pos) && Steady(v, card, r.cache, r.pos, n - 1) && p.offset <= p.length
    ensures r.pos.offset <= r.pos.length
    ensures var e := EntryAt(v, card, f, p.offset);
            var next := Next(v, card, c, p, DEFAULT_FLAGS, hasLFN, Some(ucs));
            match Step(e, DEFAULT_FLAGS, hasLFN, Some(ucs))
            case Deliver(d, ucs') => next == DirResult(r.cache, r.pos, ucs', Some(d), 1)
            case Skip(lfn, ucs') =>
              if e[0] == 0 then next == DirResult(r.cache, r.pos, ucs', None, 1)
              else
                var rest := Next(v, card, r.cache, r.pos, DEFAULT_FLAGS, lfn, ucs');
                next == rest.(entries := rest.entries + 1)
  {
    hide WellFormed, PosOk, Steady, Read, Step, Bytes;
    PosBounds(v, f, p);
    ReadEntry(v, card, c, f, p, n);
    r := Read(v, card, c, p, ENTRY_LEN);
  }

  lemma StepOnLive(e: RawEntry, ucs: seq<nat>)
    requires IsLive(e)
    ensures Step(e, DEFAULT_FLAGS, true, Some(ucs)) == Deliver(Decode(e, true), Some(ucs))
  {
  }

  lemma StepOnPart(e: RawEntry, name: seq<nat>, k: nat, hasLFN: bool, ucs: seq<nat>)
    requires k >= 1 && IsLfnPart(e, name, k)
    ensures e[0] != 0 && Step(e, DEFAULT_FLAGS, hasLFN, Some(ucs)) == Skip(true, Some(Collect(ucs, e)))
  {
  }

  /** From part `k` on, the traversal returns the short entry with the assembled name. */
  lemma {:induction false} NextAssembles(v: Volume, card: Card, c: Cache, f: File, p: Pos, n: nat,
                                         name: seq<nat>, k: nat, hasLFN: bool, ucs: seq<nat>)
    requires WellFormed(v, card, f) && PosOk(v, f, p)
    requires c.Valid() && c.Agrees(card) && k < n && Steady(v, card, c, p, n)
    requires IsName(name) && |ucs| == 256 && k <= LfnCount(name) && NamedEntryAt(v, card, f, name, p.offset, k)
    requires k < LfnCount(name) ==> hasLFN && Assembled(ucs, name, k)
    ensures p.offset <= p.length
    ensures var r := Next(v, card, c, p, DEFAULT_FLAGS, hasLFN, Some(ucs));
            && r.entry == Some(Decode(EntryAt(v, card, f, p.offset + ENTRY_LEN * k), true))
            && Assembled(r.ucs.value, name, 0)
            && r.pos.offset == p.offset + ENTRY_LEN * (k + 1)
            && PosOk(v, f, r.pos) && r.cache.Agrees(card) && Steady(v, card, r.cache, r.pos, n - k - 1)
    decreases k
  {
    hide WellFormed, PosOk, Steady, Read, Next, Step, Decode, Collect, Assembled, Bytes, IsLfnPart, IsLive;
    PosBounds(v, f, p);
    var e := EntryAt(v, card, f, p.offset);
    assert EntryAt(v, card, f, p.offset + ENTRY_LEN * 0) == e;
    var r := NextUnfolds(v, card, c, f, p, n, hasLFN, ucs);
    if k == 0 {
      StepOnLive(e, ucs);
    } else {
      StepOnPart(e, name, k, hasLFN, ucs);
      CollectAssembles(ucs, e, name, k);
      NamedTail(v, card, f, name, p.offset, k);
      NextAssembles(v, card, r.cache, f, r.pos, n - 1, name, k - 1, true, Collect(ucs, e));
    }
  }

  lemma NamedTail(v: Volume, card: Card, f: File, name: seq<nat>, off: nat, k: nat)
    requires WellFormed(v, card, f) && NamedEntryAt(v, card, f, name, off, k) && k > 0
    ensures NamedEntryAt(v, card, f, name, off + ENTRY_LEN, k - 1)
    ensures off + ENTRY_LEN + ENTRY_LEN * (k - 1) == off + ENTRY_LEN * k
  {
    hide WellFormed, Bytes, IsLfnPart, IsLive;
    forall j | 0 <= j < k - 1
      ensures IsLfnPart(EntryAt(v, card, f, off + ENTRY_LEN + ENTRY_LEN * j), name, k - 1 - j)
    {
      assert off + ENTRY_LEN + ENTRY_LEN * j == off + ENTRY_LEN * (j + 1);
    }
  }

  /** For every name of 1 to 255 characters: standard long-name entries followed by a live short
      entry make `dir_next` return that entry, with exactly the name, NUL-terminated, in a
      256-character buffer, whatever the buffer held before and whatever is cached, as long as no
      trip is stale. */
  lemma LongNameIsReturned(v: Volume, card: Card, c: Cache, f: File, p: Pos, name: seq<nat>, hasLFN: bool, ucs: seq<nat>)
    requires WellFormed(v, card, f) && PosOk(v, f, p)
    requires c.Valid() && c.Agrees(card) && Steady(v, card, c, p, LfnCount(name) + 1)
    requires IsName(name) && |ucs| == 256 && NamedEntryAt(v, card, f, name, p.offset, LfnCount(name))
    ensures p.offset <= p.length
    ensures var r := Next(v, card, c, p, DEFAULT_FLAGS, hasLFN, Some(ucs));
            && r.entry == Some(Decode(EntryAt(v, card, f, p.offset + ENTRY_LEN * LfnCount(name)), true))
            && r.ucs.value[..|name|] == name && r.ucs.value[|name|] == 0
  {
    hide WellFormed, PosOk, Steady, Read, Next, Decode, Bytes, NamedEntryAt;
    NextAssembles(v, card, c, f, p, LfnCount(name) + 1, name, LfnCount(name), hasLFN, ucs);
  }

  // ----- when entry reads are steady ---------------------------------------------------------

  /** On a first traversal: nothing ahead is cached. */
  lemma {:induction false} AheadIsSteady(v: Volume, card: Card, c: Cache, f: File, p: Pos, n: nat)
    requires WellFormed(v, card, f) && Acyclic(v, f) && PosOk(v, f, p) && p.offset + ENTRY_LEN * n <= f.length
    requires c.Valid() && c.Agrees(card) && Ahead(v, c, f, p.offset)
    ensures Steady(v, card, c, p, n)
    decreases n
  {
    hide WellFormed, Acyclic, PosOk, Ahead, Read, Harmless, NeverStale, Bytes;
    if n > 0 {
      PosBounds(v, f, p);
      AheadNeverStale(v, card, c, f, p, ENTRY_LEN);
      ReadExactlyWhenHarmless(v, card, c, f, p, ENTRY_LEN);
      var r := Read(v, card, c, p, ENTRY_LEN);
      AheadIsSteady(v, card, r.cache, f, r.pos, n - 1);
    }
  }

  /** A trip that ends before the cluster does cannot be stale, whatever is cached. */
  lemma {:induction false} WithinClusterNeverStale(v: Volume, card: Card, c: Cache, p: Pos, len: nat)
    requires c.Valid() && v.Within(p.offset) + len < v.ClusterBytes()
    ensures NeverStale(v, card, c, p, len)
    ensures v.Within(Read(v, card, c, p, len).pos.offset) <= v.Within(p.offset) + len
    decreases len
  {
    hide ReadStep, Quot, Rem, Volume.ClusterBytes, Chunk;
    if len > 0 && p.offset < p.length {
      var n := Chunk(p, len);
      RemAdvance(p.offset, n, v.ClusterBytes());
      var s := ReadStep(v, card, c, p, len);
      if s.Copied? {
        WithinClusterNeverStale(v, card, s.cache, s.pos, len - n);
      }
    }
  }

  /** In any traversal, first or repeated: the entries end before their cluster does. */
  lemma {:induction false} WithinClusterIsSteady(v: Volume, card: Card, c: Cache, p: Pos, n: nat)
    requires c.Valid() && v.Within(p.offset) + ENTRY_LEN * n < v.ClusterBytes()
    ensures Steady(v, card, c, p, n)
    decreases n
  {
    hide Read, NeverStale, Quot, Rem, Volume.ClusterBytes;
    if n > 0 {
      WithinClusterNeverStale(v, card, c, p, ENTRY_LEN);
      var r := Read(v, card, c, p, ENTRY_LEN);
      WithinClusterIsSteady(v, card, r.cache, r.pos, n - 1);
    }
  }

  /** Every block that reading the object asks for is cached. */
  ghost predicate Resident(v: Volume, c: Cache, f: File)
    requires c.Valid()
  {
    && (forall i :: 0 <= i < |f.chain| ==> c.Holds(v.FatBlock(f.chain[i])))
    && (forall x: nat :: x < f.length && v.ClusterOf(x) < |f.chain| && DataBlock(v, f, x) >= 0 ==> c.Holds(DataBlock(v, f, x)))
  }

  lemma HeldIsHit(c: Cache, card: Card, block: nat)
    requires c.Valid() && c.Holds(block)
    ensures Lookup(c.entries, block, 0).Some? && Ensure(c, card, block).cache == c
  {
  }

  lemma ResidentTrip(v: Volume, card: Card, c: Cache, f: File, p: Pos, len: nat)
    requires WellFormed(v, card, f) && PosOk(v, f, p) && InFile(f, p, len) && p.offset < p.length && len > 0
    requires c.Valid() && c.Agrees(card) && Resident(v, c, f)
    ensures !Stale(v, c, p, len) && ReadStep(v, card, c, p, len).cache == c
  {
    hide WellFormed, PosOk, ClusterOk, Quot, Rem, Ensure, ReadStep, Chunk, Crosses, DataBlock, Volume.BlockNumber;
    PosBounds(v, f, p);
    CurrentCluster(v, card, f, p);
    StepCopies(v, card, c, f, p, len);
    StepCache(v, card, c, p, len);
    HeldIsHit(c, card, DataBlock(v, f, p.offset));
    HeldIsHit(c, card, v.FatBlock(p.currCluster));
  }

  lemma {:induction false} ResidentNeverStale(v: Volume, card: Card, c: Cache, f: File, p: Pos, len: nat)
    requires WellFormed(v, card, f) && PosOk(v, f, p) && InFile(f, p, len)
    requires c.Valid() && c.Agrees(card) && Resident(v, c, f)
    ensures NeverStale(v, card, c, p, len) && Read(v, card, c, p, len).cache == c
    decreases len
  {
    hide WellFormed, PosOk, Resident, ReadStep, Stale, Chunk;
    if len > 0 && p.offset < p.length {
      ResidentTrip(v, card, c, f, p, len);
      StepMoves(v, card, c, f, p, len);
      var s := ReadStep(v, card, c, p, len);
      if s.Copied? {
        ResidentNeverStale(v, card, c, f, s.pos, len - |s.bytes|);
      }
    }
  }

  /** In a repeated traversal of an object that fits the cache. */
  lemma {:induction false} ResidentIsSteady(v: Volume, card: Card, c: Cache, f: File, p: Pos, n: nat)
    requires WellFormed(v, card, f) && PosOk(v, f, p) && p.offset + ENTRY_LEN * n <= f.length
    requires c.Valid() && c.Agrees(card) && Resident(v, c, f)
    ensures Steady(v, card, c, p, n)
    decreases n
  {
    hide WellFormed, PosOk, Resident, Read, Harmless, NeverStale, Bytes;
    if n > 0 {
      PosBounds(v, f, p);
      ResidentNeverStale(v, card, c, f, p, ENTRY_LEN);
      ReadExactlyWhenHarmless(v, card, c, f, p, ENTRY_LEN);
      ResidentIsSteady(v, card, c, f, Read(v, card, c, p, ENTRY_LEN).pos, n - 1);
    }
  }
}
