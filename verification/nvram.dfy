/** The NVRAM checksum: patched in by the sysfs write, tested when the adapter is configured. */
module Nvram {
  import opened Words

  // Addition and negation as the counter's width does them.
  function Add(a: nat, b: nat, width: nat): int { if a + b < width then a + b else a + b - width }

  function Negate(a: nat, width: nat): int { if a == 0 then 0 else width - a }

  function WordAt(b: seq<u8>, k: nat): u32
    requires 4 * k + 4 <= |b|
  {
    Word(b[4 * k], b[4 * k + 1], b[4 * k + 2], b[4 * k + 3])
  }

  // Sum of the first n little-endian words, and of the first n bytes.
  function Sum32(b: seq<u8>, n: nat): u32
    requires 4 * n <= |b|
  {
    if n == 0 then 0 else Add(Sum32(b, n - 1), WordAt(b, n - 1), TWO32)
  }

  function Sum8(b: seq<u8>, n: nat): u8
    requires n <= |b|
  {
    if n == 0 then 0 else Add(Sum8(b, n - 1), b[n - 1], TWO8)
  }

  // The same sums without a width.
  function Plain32(b: seq<u8>, n: nat): nat
    requires 4 * n <= |b|
  {
    if n == 0 then 0
    else
      var k := 4 * (n - 1);
      var p: int, q: int, r: int, s: int := b[k], b[k + 1], b[k + 2], b[k + 3];
      Plain32(b, n - 1) + (p + 0x100 * q + 0x1_0000 * r + 0x100_0000 * s)
  }

  function Plain8(b: seq<u8>, n: nat): nat
    requires n <= |b|
  {
    if n == 0 then 0 else Plain8(b, n - 1) + b[n - 1]
  }

  lemma AddIsModular(s: nat, x: nat, width: nat)
    requires width > 0 && x < width
    ensures Add(s % width, x, width) == (s + x) % width
  {
    var q, r := s / width, s % width;
    assert s + x == q * width + (r + x);
    if r + x < width {
      DivModUnique(s + x, width, q, r + x);
    } else {
      assert s + x == (q + 1) * width + (r + x - width);
      DivModUnique(s + x, width, q + 1, r + x - width);
    }
  }

  lemma {:induction false} Sum32IsPlain(b: seq<u8>, n: nat)
    requires 4 * n <= |b|
    ensures Sum32(b, n) == Plain32(b, n) % 0x1_0000_0000
  {
    if n > 0 {
      Sum32IsPlain(b, n - 1);
      AddIsModular(Plain32(b, n - 1), WordAt(b, n - 1), TWO32);
      WordIsLittleEndian(b[4 * (n - 1)], b[4 * (n - 1) + 1], b[4 * (n - 1) + 2], b[4 * (n - 1) + 3]);
    }
  }

  lemma {:induction false} Sum8IsPlain(b: seq<u8>, n: nat)
    requires n <= |b|
    ensures Sum8(b, n) == Plain8(b, n) % 0x100
  {
    if n > 0 {
      Sum8IsPlain(b, n - 1);
      AddIsModular(Plain8(b, n - 1), b[n - 1], TWO8);
    }
  }

  /** An image is consistent when its plain sum, of words or of bytes, is a multiple of the width. */
  lemma ConsistentIsPlain(b: seq<u8>, fwi2: bool)
    ensures Consistent(b, fwi2) <==>
            if fwi2 then Plain32(b, |b| / 4) % 0x1_0000_0000 == 0 else Plain8(b, |b|) % 0x100 == 0
  {
    Sum32IsPlain(b, |b| / 4);
    Sum8IsPlain(b, |b|);
  }

  // What the configuration code tests: the sum over the whole image.
  predicate Consistent(b: seq<u8>, fwi2: bool) {
    if fwi2 then Sum32(b, |b| / 4) == 0 else Sum8(b, |b|) == 0
  }

  // Do the images agree outside the checksum field, the last whole word or the last byte?
  predicate SameOutside(a: seq<u8>, b: seq<u8>, fwi2: bool) {
    && |a| == |b| >= 4
    && forall i | 0 <= i < |a| && !InField(i, |a|, fwi2) :: a[i] == b[i]
  }

  predicate InField(i: nat, size: nat, fwi2: bool) {
    if fwi2 then 4 * (size / 4 - 1) <= i < 4 * (size / 4) else i == size - 1
  }

  lemma {:induction false} Sum32Prefix(a: seq<u8>, b: seq<u8>, n: nat)
    requires 4 * n <= |a| && 4 * n <= |b| && forall i | 0 <= i < 4 * n :: a[i] == b[i]
    ensures Sum32(a, n) == Sum32(b, n)
  {
    if n > 0 { Sum32Prefix(a, b, n - 1); }
  }

  lemma {:induction false} Sum8Prefix(a: seq<u8>, b: seq<u8>, n: nat)
    requires n <= |a| && n <= |b| && forall i | 0 <= i < n :: a[i] == b[i]
    ensures Sum8(a, n) == Sum8(b, n)
  {
    if n > 0 { Sum8Prefix(a, b, n - 1); }
  }

  /**
   At most one checksum goes with the rest of an image: two consistent images that agree outside the field
   are the same image.  So the patch is the only repair, and it leaves a consistent image alone.
   */
  lemma ChecksumIsUnique(a: seq<u8>, b: seq<u8>, fwi2: bool)
    requires SameOutside(a, b, fwi2) && Consistent(a, fwi2) && Consistent(b, fwi2)
    ensures a == b
  {
    if fwi2 {
      LastWordUnique(a, b, |a| / 4);
    } else {
      Sum8Prefix(a, b, |a| - 1);
    }
  }

  lemma LastWordUnique(a: seq<u8>, b: seq<u8>, n: nat)
    requires 0 < n && 4 * n <= |a| == |b| && Sum32(a, n) == Sum32(b, n)
    requires forall i | 0 <= i < 4 * (n - 1) :: a[i] == b[i]
    ensures forall i | 4 * (n - 1) <= i < 4 * n :: a[i] == b[i]
  {
    Sum32Prefix(a, b, n - 1);
    assert WordAt(a, n - 1) == WordAt(b, n - 1);
    WordIsInjective(a, b, n - 1);
  }

  lemma WordIsInjective(a: seq<u8>, b: seq<u8>, k: nat)
    requires 4 * k + 4 <= |a| == |b| && WordAt(a, k) == WordAt(b, k)
    ensures forall i | 4 * k <= i < 4 * k + 4 :: a[i] == b[i]
  {
    WordParts(a[4 * k], a[4 * k + 1], a[4 * k + 2], a[4 * k + 3]);
    WordParts(b[4 * k], b[4 * k + 1], b[4 * k + 2], b[4 * k + 3]);
  }

  class Adapter {
    const fwi2: bool
    const nvram: array<u8>             // the driver's copy, of the configured size

    constructor (fwi2: bool, size: nat)
      requires 4 <= size < 0x1_0000
      ensures Valid() && this.fwi2 == fwi2 && nvram.Length == size && fresh(nvram)
    {
      this.fwi2 := fwi2;
      nvram := new u8[size](_ => 0);
    }

    // Loop counters are sixteen bits wide.
    ghost predicate Valid() { 4 <= nvram.Length < 0x1_0000 }

    /** The configuration-time sum over the driver's copy. */
    method Configure() returns (ok: bool)
      requires Valid()
      ensures ok == Consistent(nvram[..], fwi2)
    {
      if fwi2 {
        var chksum: u32 := 0;
        for cnt := 0 to nvram.Length / 4
          invariant chksum == Sum32(nvram[..], cnt)
        {
          var w := Word(nvram[4 * cnt], nvram[4 * cnt + 1], nvram[4 * cnt + 2], nvram[4 * cnt + 3]);
          chksum := Add(chksum, w, TWO32);
        }
        ok := chksum == 0;
      } else {
        var chksum: u8 := 0;
        for cnt := 0 to nvram.Length
          invariant chksum == Sum8(nvram[..], cnt)
        {
          chksum := Add(chksum, nvram[cnt], TWO8);
        }
        ok := chksum == 0;
      }
    }

    method PatchWords(buf: array<u8>)
      requires 4 <= buf.Length < 0x1_0000
      modifies buf
      ensures Consistent(buf[..], true) && SameOutside(old(buf[..]), buf[..], true)
      ensures var n := buf.Length / 4;
              forall i | 0 <= i < buf.Length && !(4 * n - 4 <= i < 4 * n) :: buf[i] == old(buf[i])
    {
      var n := buf.Length / 4;
      var chksum: u32 := 0;
      for cnt := 0 to n - 1
        invariant chksum == Sum32(buf[..], cnt) && buf[..] == old(buf[..])
      {
        chksum := Add(chksum, Word(buf[4 * cnt], buf[4 * cnt + 1], buf[4 * cnt + 2], buf[4 * cnt + 3]), TWO32);
      }
      var w: u32 := Negate(chksum, TWO32);
      PutWord(buf, n - 1, w);
      Sum32Prefix(old(buf[..]), buf[..], n - 1);
      assert Sum32(buf[..], n) == Add(chksum, w, TWO32);
    }

    method PatchBytes(buf: array<u8>)
      requires 4 <= buf.Length < 0x1_0000
      modifies buf
      ensures Consistent(buf[..], false) && SameOutside(old(buf[..]), buf[..], false)
      ensures forall i | 0 <= i < buf.Length - 1 :: buf[i] == old(buf[i])
    {
      var n := buf.Length;
      var chksum: u8 := 0;
      for cnt := 0 to n - 1
        invariant chksum == Sum8(buf[..], cnt) && buf[..] == old(buf[..])
      {
        chksum := Add(chksum, buf[cnt], TWO8);
      }
      buf[n - 1] := Negate(chksum, TWO8);
      Sum8Prefix(old(buf[..]), buf[..], n - 1);
    }

    /**
     The sysfs write: a request of the wrong offset or size is refused and changes nothing; otherwise the
     caller's buffer gets the one checksum that makes it consistent, and becomes the adapter's image.
     */
    method WriteNvram(buf: array<u8>, off: nat, online: bool) returns (ok: bool)
      requires Valid() && buf != nvram
      modifies buf, nvram
      ensures ok <==> off == 0 && buf.Length == nvram.Length && online
      ensures off == 0 && buf.Length == nvram.Length ==>
                Consistent(buf[..], fwi2) && SameOutside(old(buf[..]), buf[..], fwi2)
      ensures var n, last := buf.Length, if fwi2 then 4 else 1;
              forall i | 0 <= i < n && !(last * (n / last) - last <= i < last * (n / last)) :: buf[i] == old(buf[i])
      ensures Consistent(old(buf[..]), fwi2) ==> buf[..] == old(buf[..])
      ensures off != 0 || buf.Length != nvram.Length ==> buf[..] == old(buf[..])
      ensures nvram[..] == if ok then buf[..] else old(nvram[..])
    {
      if off != 0 || buf.Length != nvram.Length {
        return false;
      }
      if fwi2 {
        PatchWords(buf);
      } else {
        PatchBytes(buf);
      }
      ghost var patched := buf[..];
      if Consistent(old(buf[..]), fwi2) {
        ChecksumIsUnique(old(buf[..]), patched, fwi2);
      }
      ok := online;
      if ok {
        forall i | 0 <= i < buf.Length {
          nvram[i] := buf[i];
        }
        assert nvram[..] == buf[..];
      }
      assert buf[..] == patched;
    }
  }

  method PutWord(buf: array<u8>, k: nat, w: u32)
    requires 4 * k + 4 <= buf.Length
    modifies buf
    ensures WordAt(buf[..], k) == w
    ensures forall i | 0 <= i < buf.Length && !(4 * k <= i < 4 * k + 4) :: buf[i] == old(buf[i])
  {
    buf[4 * k], buf[4 * k + 1] := w % TWO8, w / TWO8 % TWO8;
    buf[4 * k + 2], buf[4 * k + 3] := w / TWO8 / TWO8 % TWO8, w / TWO8 / TWO8 / TWO8;
  }
}
