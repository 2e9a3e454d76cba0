/** `usbdev_memcpy`: the unrolled word copy between memory and the packet buffers, which accept only
    32-bit accesses. */
module UsbCopy {
  import opened Words

  /** A length rounded up to whole words. */
  function WholeWords(len: nat): (n: nat)
    ensures len <= n < len + 4 && n % 4 == 0
  {
    (len + 3) / 4 * 4
  }

  /** A little-endian word, as a 32-bit access reads it. */
  function WordAt(s: seq<byte>, i: nat): nat
    requires i + 4 <= |s|
  {
    Read32le(s, i)
  }

  /** A 32-bit store. */
  method StoreWord(dst: array<byte>, i: nat, w: nat)
    requires i + 4 <= dst.Length && w < TWO32
    modifies dst
    ensures forall k :: 0 <= k < dst.Length && !(i <= k < i + 4) ==> dst[k] == old(dst[k])
    ensures dst[i] as int == w % 0x100 && dst[i + 1] as int == w / 0x100 % 0x100
    ensures dst[i + 2] as int == w / 0x1_0000 % 0x100 && dst[i + 3] as int == w / 0x100_0000
  {
    dst[i], dst[i + 1] := w % 0x100, w / 0x100 % 0x100;
    dst[i + 2], dst[i + 3] := w / 0x1_0000 % 0x100, w / 0x100_0000;
  }

  lemma WordBytes(b0: byte, b1: byte, b2: byte, b3: byte)
    ensures var w := b0 as int + 0x100 * b1 as int + 0x1_0000 * b2 as int + 0x100_0000 * b3 as int;
            && w % 0x100 == b0 as int && w / 0x100 % 0x100 == b1 as int
            && w / 0x1_0000 % 0x100 == b2 as int && w / 0x100_0000 == b3 as int
  {
    var w := b0 as int + 0x100 * b1 as int + 0x1_0000 * b2 as int + 0x100_0000 * b3 as int;
    assert w / 0x100 == b1 as int + 0x100 * b2 as int + 0x1_0000 * b3 as int;
    assert w / 0x1_0000 == b2 as int + 0x100 * b3 as int;
  }

  /** One word from the source to the same place in the destination. */
  method CopyWord(dst: array<byte>, src: seq<byte>, i: nat)
    requires i + 4 <= dst.Length && i + 4 <= |src|
    modifies dst
    ensures forall k :: 0 <= k < dst.Length ==> dst[k] == if i <= k < i + 4 then src[k] else old(dst[k])
  {
    WordBytes(src[i], src[i + 1], src[i + 2], src[i + 3]);
    StoreWord(dst, i, WordAt(src, i));
  }

  /** The copied prefix, with everything beyond as before. */
  ghost predicate Copied(now: seq<byte>, was: seq<byte>, src: seq<byte>, n: nat) {
    && |now| == |was| && n <= |was| && n <= |src|
    && forall k :: 0 <= k < |now| ==> now[k] == if k < n then src[k] else was[k]
  }

  /** One word more. */
  method CopyNext(dst: array<byte>, src: seq<byte>, i: nat, ghost was: seq<byte>)
    requires i + 4 <= dst.Length && i + 4 <= |src| && Copied(dst[..], was, src, i)
    modifies dst
    ensures Copied(dst[..], was, src, i + 4)
  {
    CopyWord(dst, src, i);
  }

  /** The whole words of a copy: four at a time, then one at a time. */
  method CopyWords(dst: array<byte>, src: seq<byte>, len: nat) returns (i: nat)
    requires len <= dst.Length && len <= |src|
    modifies dst
    ensures i % 4 == 0 && i <= len < i + 4 && Copied(dst[..], old(dst[..]), src, i)
  {
    hide Copied;
    ghost var was := dst[..];
    var end, left := Split(len);
    i := 0;
    assert Copied(dst[..], was, src, 0) by { NothingCopied(was, src); }
    ghost var k := 0;
    while i < end
      invariant i == 16 * k && i <= end && Copied(dst[..], was, src, i)
    {
      CopyNext(dst, src, i, was);
      CopyNext(dst, src, i + 4, was);
      CopyNext(dst, src, i + 8, was);
      CopyNext(dst, src, i + 12, was);
      i, k := i + 16, k + 1;
    }
    ghost var j := 4 * k;
    while left >= 4
      invariant 0 <= left && i + left == len && i == 4 * j && Copied(dst[..], was, src, i)
    {
      CopyNext(dst, src, i, was);
      i, left, j := i + 4, left - 4, j + 1;
    }
  }

  /** The part of a length in whole sixteens, and the rest of it. */
  method Split(len: nat) returns (end: nat, left: nat)
    ensures end == len / 16 * 16 && left == len % 16 && end + left == len
    ensures forall k: nat :: 16 * k < end ==> 16 * k + 16 <= end
  {
    end, left := len / 16 * 16, len % 16;
    assert forall k: nat :: 16 * k < end ==> k + 1 <= len / 16;
  }

  lemma NothingCopied(was: seq<byte>, src: seq<byte>)
    ensures Copied(was, was, src, 0)
  {
  }

  /** The word loops equal a byte copy: the first `len` bytes match.  From the device nothing after them
      changes; to the device only the rest of the last, partial word does, and it becomes zero. */
  method Memcpy(dst: array<byte>, src: seq<byte>, len: nat, toDev: bool)
    requires len <= 0xff
    requires if toDev then WholeWords(len) <= dst.Length && len <= |src| else len <= dst.Length && WholeWords(len) <= |src|
    modifies dst
    ensures dst[..len] == src[..len]
    ensures !toDev ==> dst[len..] == old(dst[len..])
    ensures toDev ==> (forall k :: len <= k < WholeWords(len) ==> dst[k] == 0)
    ensures toDev ==> dst[WholeWords(len)..] == old(dst[WholeWords(len)..])
  {
    var i := CopyWords(dst, src, len);
    var left := len - i;
    if left > 0 {
      if toDev {
        TailToDevice(dst, src, i, left);
      } else {
        TailFromDevice(dst, src, i, left);
      }
    }
  }

  /** The last bytes, collected into a word for the device. */
  method TailToDevice(dst: array<byte>, src: seq<byte>, i: nat, left: nat)
    requires 0 < left < 4 && i + 4 <= dst.Length && i + left <= |src|
    modifies dst
    ensures forall k :: 0 <= k < dst.Length ==>
              dst[k] == if i <= k < i + left then src[k] else if i <= k < i + 4 then 0 else old(dst[k])
  {
    var b1: byte := if left > 1 then src[i + 1] else 0;
    var b2: byte := if left > 2 then src[i + 2] else 0;
    WordBytes(src[i], b1, b2, 0);
    StoreWord(dst, i, src[i] as int + 0x100 * b1 as int + 0x1_0000 * b2 as int);
  }

  /** The last bytes, unpacked from the device's word. */
  method TailFromDevice(dst: array<byte>, src: seq<byte>, i: nat, left: nat)
    requires 0 < left < 4 && i + left <= dst.Length && i + 4 <= |src|
    modifies dst
    ensures forall k :: 0 <= k < dst.Length ==> dst[k] == if i <= k < i + left then src[k] else old(dst[k])
  {
    var w := WordAt(src, i);
    WordBytes(src[i], src[i + 1], src[i + 2], src[i + 3]);
    dst[i] := w % 0x100;
    if left > 1 {
      dst[i + 1] := w / 0x100 % 0x100;
    }
    if left > 2 {
      dst[i + 2] := w / 0x1_0000 % 0x100;
    }
  }
}
