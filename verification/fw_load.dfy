/**
 Loading a firmware image into the adapter, in chunks of the request ring used as a staging area.
 Words are as a little-endian host loads them, so the image's big-endian words are read byte-reversed.
 */
module FwLoad {
  import opened Words

  // An image of size bytes; words(i) is the i-th 32-bit word from its start, also behind its end.
  datatype Blob = Blob(words: nat -> u32, size: nat)

  datatype Result = Loaded(start: u32) | TooShort | BadVersion | TooLong | Refused

  // One word stored at one adapter address.
  datatype Store = Store(addr: u32, word: u32)

  // The i-th address from addr on, with thirty-two bits.
  function At(addr: u32, i: nat): u32 {
    if i == 0 then addr else if At(addr, i - 1) == TWO32 - 1 then 0 else At(addr, i - 1) + 1
  }

  /** Counting up an address word by word is the wrapping addition. */
  lemma {:induction false} AtWraps(addr: u32, i: nat)
    ensures At(addr, i) == (addr + i) % TWO32
  {
    if i > 0 {
      AtWraps(addr, i - 1);
      var q: int := (addr + i - 1) / TWO32;
      var r: int := At(addr, i - 1);
      assert addr + i == q * TWO32 + (r + 1);
      if r == TWO32 - 1 {
        DivModUnique(addr + i, TWO32, q + 1, 0);
      } else {
        DivModUnique(addr + i, TWO32, q, r + 1);
      }
    }
  }

  // Segment headers: the load address and the number of words, header included.
  function SegAddr(b: Blob, at: nat): u32 { Swab(b.words(at + 2)) }

  function SegSize(b: Blob, at: nat): u32 { Swab(b.words(at + 3)) }

  // n words of the image from place at, byte-reversed, at addresses from addr on.
  function Stores(b: Blob, at: nat, addr: u32, n: nat): seq<Store> {
    if n == 0 then [] else Stores(b, at, addr, n - 1) + [Store(At(addr, n - 1), Swab(b.words(at + n - 1)))]
  }

  /** A segment's address stands in its bytes 8 to 11 and its size in bytes 12 to 15, highest byte first. */
  lemma HeaderBytes(b: Blob, at: nat, p: u8, q: u8, r: u8, s: u8)
    ensures b.words(at + 2) == Word(p, q, r, s) ==> SegAddr(b, at) == p * 0x100_0000 + q * 0x1_0000 + r * 0x100 + s
    ensures b.words(at + 3) == Word(p, q, r, s) ==> SegSize(b, at) == p * 0x100_0000 + q * 0x1_0000 + r * 0x100 + s
  {
    SwabWord(p, q, r, s);
    WordIsLittleEndian(s, r, q, p);
  }

  /** Word k of a run goes to the address k places on, in thirty-two bits. */
  lemma {:induction false} StoresAt(b: Blob, at: nat, addr: u32, n: nat, k: nat)
    requires k < n
    ensures |Stores(b, at, addr, n)| == n
    ensures Stores(b, at, addr, n)[k] == Store((addr + k) % 0x1_0000_0000, Swab(b.words(at + k)))
  {
    if n == 1 {
      assert Stores(b, at, addr, 0) == [];
    } else {
      StoresAt(b, at, addr, n - 1, if k < n - 1 then k else 0);
    }
    AtWraps(addr, k);
  }

  lemma {:induction false} StoresLength(b: Blob, at: nat, addr: u32, n: nat)
    ensures |Stores(b, at, addr, n)| == n
  {
    if n > 0 { StoresLength(b, at, addr, n - 1); }
  }

  lemma {:induction false} StoresSplit(b: Blob, at: nat, addr: u32, n: nat, m: nat)
    ensures Stores(b, at, addr, n) + Stores(b, at + n, At(addr, n), m) == Stores(b, at, addr, n + m)
  {
    if m == 0 {
      assert Stores(b, at, addr, n) + [] == Stores(b, at, addr, n);
    } else {
      StoresSplit(b, at, addr, n, m - 1);
      AtAdds(addr, n, m - 1);
      assert at + n + m - 1 == at + (n + m) - 1;
    }
  }

  // A segment in progress: done words of it are stored behind base, and addr is where the next one goes.
  ghost predicate Sent(base: seq<Store>, cur: seq<Store>, b: Blob, at: nat, from: u32, done: nat, addr: u32) {
    addr == At(from, done) && cur == base + Stores(b, at, from, done)
  }

  lemma SentMore(base: seq<Store>, cur: seq<Store>, b: Blob, at: nat, from: u32, done: nat, addr: u32, n: nat)
    requires Sent(base, cur, b, at, from, done, addr)
    ensures Sent(base, cur + Stores(b, at + done, addr, n), b, at, from, done + n, At(addr, n))
  {
    StoresSplit(b, at, from, done, n);
    AtAdds(from, done, n);
    Associate(base, Stores(b, at, from, done), Stores(b, at + done, addr, n));
  }

  lemma Associate(a: seq<Store>, b: seq<Store>, c: seq<Store>)
    ensures (a + b) + c == a + (b + c)
  {
  }

  lemma {:induction false} AtAdds(addr: u32, n: nat, i: nat)
    ensures At(At(addr, n), i) == At(addr, n + i)
  {
    if i > 0 { AtAdds(addr, n, i - 1); }
  }

  // ---------- the checks ----------

  predicate BadWords(b: Blob) {
    || (forall i | 4 <= i < 8 :: b.words(i) == 0)
    || (forall i | 4 <= i < 8 :: Swab(b.words(i)) == TWO32 - 1)
  }

  /** An image is rejected when its four version words are all zeros or all ones. */
  lemma VersionBad(b: Blob)
    ensures BadWords(b) <==>
            || (b.words(4) == 0 && b.words(5) == 0 && b.words(6) == 0 && b.words(7) == 0)
            || (b.words(4) == 0xFFFF_FFFF && b.words(5) == 0xFFFF_FFFF && b.words(6) == 0xFFFF_FFFF
                && b.words(7) == 0xFFFF_FFFF)
  {
    SwabOnes();
    forall i | 4 <= i < 8 ensures Swab(b.words(i)) == TWO32 - 1 <==> b.words(i) == 0xFFFF_FFFF {
      SwabTwice(b.words(i));
    }
    assert (forall i | 4 <= i < 8 :: b.words(i) == 0) <==>
           b.words(4) == 0 && b.words(5) == 0 && b.words(6) == 0 && b.words(7) == 0;
  }

  lemma SwabOnes()
    ensures Swab(0xFFFF_FFFF) == 0xFFFF_FFFF
  {
    SwabWord(0xFF, 0xFF, 0xFF, 0xFF);
  }

  // The byte counter after the first segment and after both: thirty-two bits wide.
  function FirstLen(b: Blob): u32 { 4 * SegSize(b, 0) % TWO32 }

  function BothLen(b: Blob): u32 { (FirstLen(b) + 4 * SegSize(b, SegSize(b, 0))) % TWO32 }

  function TotalWords(b: Blob): nat { SegSize(b, 0) + SegSize(b, SegSize(b, 0)) }

  predicate SizesPass(b: Blob) { FirstLen(b) <= b.size && BothLen(b) <= b.size }

  // Every word the loader sends lies inside the image.
  predicate Inside(b: Blob) { 4 * TotalWords(b) <= b.size }

  /** The size checks keep the loader inside the image when the byte count has thirty-two bits. */
  lemma ChecksKeepInside(b: Blob)
    requires 4 * TotalWords(b) < TWO32
    ensures SizesPass(b) <==> Inside(b)
  {
    CountsExactly(SegSize(b, 0), SegSize(b, SegSize(b, 0)));
  }

  lemma CountsExactly(first: nat, second: nat)
    requires 4 * (first + second) < TWO32
    ensures 4 * first % TWO32 == 4 * first
    ensures (4 * first + 4 * second) % TWO32 == 4 * (first + second)
  {
  }

  /** And only then: with any larger count some image passes the checks although its segments reach past its end. */
  lemma ChecksNeedNarrowCount(words: nat -> u32)
    ensures (forall size: nat :: SizesPass(Blob(words, size)) ==> Inside(Blob(words, size)))
            <==> 4 * TotalWords(Blob(words, 0)) < TWO32
  {
    var b := Blob(words, 0);
    var total := 4 * TotalWords(b);
    forall size: nat
      ensures TotalWords(Blob(words, size)) == TotalWords(b)
      ensures FirstLen(Blob(words, size)) == FirstLen(b) && BothLen(Blob(words, size)) == BothLen(b)
    {
    }
    if total < TWO32 {
      forall size: nat | SizesPass(Blob(words, size)) ensures Inside(Blob(words, size)) {
        ChecksKeepInside(Blob(words, size));
      }
    } else {
      var witness' := TWO32 - 1;
      assert SizesPass(Blob(words, witness')) && !Inside(Blob(words, witness'));
    }
  }

  // Everything a loaded image has stored: each segment at its own address.
  function Image(b: Blob): seq<Store> { FirstSegments(b, 2) }

  function FirstSegments(b: Blob, k: nat): seq<Store> {
    if k == 0 then []
    else
      var first := Stores(b, 0, SegAddr(b, 0), SegSize(b, 0));
      if k == 1 then first
      else first + Stores(b, SegSize(b, 0), SegAddr(b, SegSize(b, 0)), SegSize(b, SegSize(b, 0)))
  }

  /** What a loaded image has stored, word by word: the first segment at its address, then the second at its own. */
  lemma ImageAt(b: Blob, k: nat)
    requires k < TotalWords(b)
    ensures |Image(b)| == TotalWords(b)
    ensures Image(b)[k] ==
            var first := SegSize(b, 0);
            if k < first then Store((SegAddr(b, 0) + k) % 0x1_0000_0000, Swab(b.words(k)))
            else Store((SegAddr(b, first) + (k - first)) % 0x1_0000_0000, Swab(b.words(k)))
  {
    var first := SegSize(b, 0);
    assert Image(b) == Stores(b, 0, SegAddr(b, 0), first) + Stores(b, first, SegAddr(b, first), SegSize(b, first));
    TwoRuns(b, SegAddr(b, 0), first, SegAddr(b, first), SegSize(b, first), k);
  }

  lemma TwoRuns(b: Blob, addr: u32, n: nat, addr': u32, m: nat, k: nat)
    requires k < n + m
    ensures var s := Stores(b, 0, addr, n) + Stores(b, n, addr', m);
            && |s| == n + m
            && s[k] == if k < n then Store((addr + k) % 0x1_0000_0000, Swab(b.words(k)))
                       else Store((addr' + (k - n)) % 0x1_0000_0000, Swab(b.words(k)))
  {
    StoresLength(b, 0, addr, n);
    StoresLength(b, n, addr', m);
    if k < n { StoresAt(b, 0, addr, n, k); } else { StoresAt(b, n, addr', m, k - n); }
  }

  // Where the firmware is started: the first non-zero segment address.
  function StartAddr(b: Blob): u32 {
    if SegAddr(b, 0) == 0 then SegAddr(b, SegSize(b, 0)) else SegAddr(b, 0)
  }

  // The loader's variables after k segments.
  ghost predicate Reached(b: Blob, k: nat, fwcode: nat, fwclen: nat, start: u32) {
    if k == 0 then fwcode == 0 && fwclen == 0 && start == 0
    else if k == 1 then fwcode == SegSize(b, 0) && fwclen == FirstLen(b) <= b.size && start == SegAddr(b, 0)
    else fwcode == TotalWords(b) && fwclen == BothLen(b) && SizesPass(b)
         && start == StartAddr(b)
  }

  // An image of 64 bytes whose first segment claims 0x4000_0001 words; a plain version word makes it valid.
  function WideWord(i: nat): u32 { if i == 3 then Word(0x40, 0, 0, 1) else if i == 4 then 1 else 0 }

  /** It passes every check, the byte count having wrapped to four, and its segment reaches far past its end. */
  lemma SmallImagePasses()
    ensures var b := Blob(WideWord, 64);
            b.size >= 32 && !BadWords(b) && SegSize(b, 0) == 0x4000_0001 && SizesPass(b) && !Inside(b)
  {
    var b := Blob(WideWord, 64);
    SwabWord(0x40, 0, 0, 1);
    SwabWord(0, 0, 0, 0);
    SwabWord(1, 0, 0, 0);
    assert Word(0, 0, 0, 0) == 0 && Word(1, 0, 0, 0) == 1 && Word(1, 0, 0, 0x40) == 0x4000_0001;
    assert b.words(4) == 1 && Swab(b.words(5)) == 0;
    assert SegSize(b, 0) == 0x4000_0001 && SegSize(b, 0x4000_0001) == 0;
  }

  // An image of 48 bytes: eight words for 0x10_0000, with a version, and four words for 0x20_0000.
  function PlainWord(i: nat): u32 {
    if i == 2 then Word(0, 0x10, 0, 0) else if i == 3 then Word(0, 0, 0, 8) else if i == 4 then Word(0, 0, 0, 1)
    else if i == 10 then Word(0, 0x20, 0, 0) else if i == 11 then Word(0, 0, 0, 4) else 0
  }

  /** It passes the checks, lies inside, and starts where its first segment goes. */
  lemma PlainImage()
    ensures var b := Blob(PlainWord, 48);
            !BadWords(b) && SizesPass(b) && Inside(b) && TotalWords(b) == 12 && StartAddr(b) == 0x10_0000
  {
    PlainHeaders();
    VersionBad(Blob(PlainWord, 48));
  }

  /** And each of its words goes to its address. */
  lemma PlainStores(k: nat)
    requires k < 12
    ensures var b := Blob(PlainWord, 48);
            && |Image(b)| == 12
            && Image(b)[k] == Store(if k < 8 then 0x10_0000 + k else 0x20_0000 + (k - 8), Swab(PlainWord(k)))
  {
    PlainHeaders();
    ImageAt(Blob(PlainWord, 48), k);
  }

  lemma PlainHeaders()
    ensures var b := Blob(PlainWord, 48);
            && SegAddr(b, 0) == 0x10_0000 && SegSize(b, 0) == 8 && SegAddr(b, 8) == 0x20_0000 && SegSize(b, 8) == 4
            && b.words(4) == 0x100_0000 && b.words(5) == 0
  {
    var b := Blob(PlainWord, 48);
    assert b.words(2) == Word(0, 0x10, 0, 0) && b.words(3) == Word(0, 0, 0, 8);
    assert b.words(10) == Word(0, 0x20, 0, 0) && b.words(11) == Word(0, 0, 0, 4);
    HeaderBytes(b, 0, 0, 0x10, 0, 0);
    HeaderBytes(b, 0, 0, 0, 0, 8);
    HeaderBytes(b, 8, 0, 0x20, 0, 0);
    HeaderBytes(b, 8, 0, 0, 0, 4);
    WordIsLittleEndian(0, 0, 0, 1);
  }

  lemma SegmentDone(b: Blob, k: nat, fwcode: nat, fwclen: nat, start: u32)
    requires k < 2 && Reached(b, k, fwcode, fwclen, start)
    ensures var len := (fwclen + 4 * SegSize(b, fwcode)) % TWO32;
            if b.size < len then !SizesPass(b)
            else Reached(b, k + 1, fwcode + SegSize(b, fwcode), len, if start == 0 then SegAddr(b, fwcode) else start)
  {
  }

  lemma SegmentsGrow(base: seq<Store>, cur: seq<Store>, b: Blob, k: nat, fwcode: nat, fwclen: nat, start: u32)
    requires k < 2 && Reached(b, k, fwcode, fwclen, start) && cur == base + FirstSegments(b, k)
    ensures cur + Stores(b, fwcode, SegAddr(b, fwcode), SegSize(b, fwcode)) == base + FirstSegments(b, k + 1)
  {
    var next := Stores(b, fwcode, SegAddr(b, fwcode), SegSize(b, fwcode));
    Associate(base, FirstSegments(b, k), next);
    if k == 0 { assert [] + next == next; }
  }

  lemma VersionWords(b: Blob, ws: seq<u32>)
    requires |ws| == 4 && forall j | 0 <= j < 4 :: ws[j] == Swab(b.words(j + 4))
    ensures (forall j | 0 <= j < 4 :: ws[j] == 0) <==> (forall i | 4 <= i < 8 :: b.words(i) == 0)
    ensures (forall j | 0 <= j < 4 :: ws[j] == TWO32 - 1) <==> (forall i | 4 <= i < 8 :: Swab(b.words(i)) == TWO32 - 1)
  {
    forall i | 4 <= i < 8 ensures ws[i - 4] == Swab(b.words(i)) {}
    forall i | 4 <= i < 8 ensures Swab(b.words(i)) == 0 <==> b.words(i) == 0 { SwabTwice(b.words(i)); }
  }

  // ---------- the loader ----------

  class Loader {
    const dcode: array<u32>        // the request ring, used for staging
    const transfer: nat            // its size in bytes
    var stores: seq<Store>         // what the adapter has stored
    var requests: nat              // load commands given so far

    constructor (ringLength: nat)
      requires 0 < ringLength
      ensures Valid() && fresh(dcode) && stores == [] && requests == 0
    {
      transfer := 64 * ringLength;
      dcode := new u32[16 * ringLength](_ => 0);
      stores, requests := [], 0;
    }

    // The ring holds a whole transfer and at least the four version words.
    ghost predicate Valid() { dcode.Length == transfer / 4 && 16 <= dcode.Length }

    /** The load command: the adapter stores the staged words, or refuses. */
    method LoadRam(addr: u32, n: nat, accept: nat -> bool, ghost b: Blob, ghost at: nat) returns (ok: bool)
      requires Valid() && n <= dcode.Length
      requires forall i | 0 <= i < n :: dcode[i] == Swab(b.words(at + i))
      modifies `stores, `requests
      ensures ok == accept(old(requests)) && requests == old(requests) + 1
      ensures stores == if ok then old(stores) + Stores(b, at, addr, n) else old(stores)
    {
      ok := accept(requests);
      requests := requests + 1;
      if ok {
        assert stores + [] == stores;
        for i := 0 to n
          invariant stores == old(stores) + Stores(b, at, addr, i) && requests == old(requests) + 1
        {
          ghost var s, x := Stores(b, at, addr, i), Store(At(addr, i), dcode[i]);
          assert (old(stores) + s) + [x] == old(stores) + (s + [x]);
          stores := stores + [Store(At(addr, i), dcode[i])];
        }
      }
    }

    method LoadChunk(b: Blob, at: nat, addr: u32, dlen: nat, accept: nat -> bool) returns (ok: bool)
      requires Valid() && dlen <= dcode.Length
      modifies dcode, `stores, `requests
      ensures ok == accept(old(requests)) && requests == old(requests) + 1
      ensures stores == if ok then old(stores) + Stores(b, at, addr, dlen) else old(stores)
    {
      for i := 0 to dlen
        invariant forall j | 0 <= j < i :: dcode[j] == Swab(b.words(at + j))
        modifies dcode
      {
        dcode[i] := Swab(b.words(at + i));
      }
      ok := LoadRam(addr, dlen, accept, b, at);
    }

    // Of the commands given from first on, only the latest can have been refused.
    ghost predicate Given(first: nat, accept: nat -> bool, ok: bool)
      reads `requests
    {
      first <= requests && (ok ==> forall k | first <= k < requests :: accept(k))
      && (!ok ==> first < requests && !accept(requests - 1))
    }

    /** A segment in chunks: if no command is refused, the adapter has stored the segment as one piece. */
    method LoadSegment(b: Blob, at: nat, riscAddr: u32, size: nat, accept: nat -> bool) returns (ok: bool)
      requires Valid()
      modifies dcode, `stores, `requests
      ensures Given(old(requests), accept, ok)
      ensures ok ==> stores == old(stores) + Stores(b, at, riscAddr, size)
    {
      var addr: u32, left: nat, done: nat := riscAddr, size, 0;
      ok := true;
      assert stores + [] == stores;
      while left > 0
        invariant done + left == size && ok
        invariant Given(old(requests), accept, true)
        invariant Sent(old(stores), stores, b, at, riscAddr, done, addr)
        decreases left
      {
        var dlen := transfer / 4;
        if dlen > left {
          dlen := left;
        }
        SentMore(old(stores), stores, b, at, riscAddr, done, addr, dlen);
        ok := LoadChunk(b, at + done, addr, dlen, accept);
        if !ok {
          return;
        }
        AtWraps(addr, dlen);
        addr, left, done := (addr + dlen) % TWO32, left - dlen, done + dlen;
      }
    }

    method CheckVersion(b: Blob) returns (bad: bool)
      requires Valid()
      modifies dcode
      ensures bad == BadWords(b)
    {
      for i := 0 to 4
        invariant forall j | 0 <= j < i :: dcode[j] == Swab(b.words(j + 4))
      {
        dcode[i] := Swab(b.words(i + 4));
      }
      bad := (forall i | 0 <= i < 4 :: dcode[i] == TWO32 - 1) || (forall i | 0 <= i < 4 :: dcode[i] == 0);
      VersionWords(b, dcode[..4]);
    }

    /** Both segments, each checked against the image size before it is sent. */
    method LoadSegments(b: Blob, accept: nat -> bool) returns (r: Result)
      requires Valid()
      modifies dcode, `stores, `requests
      ensures r.Loaded? || r.TooLong? || r.Refused?
      ensures r.TooLong? ==> !SizesPass(b)
      ensures Given(old(requests), accept, !r.Refused?)
      ensures r.Loaded? ==> SizesPass(b) && stores == old(stores) + Image(b) && r.start == StartAddr(b)
    {
      var segments: nat, fwcode: nat, fwclen: nat, start: u32 := 2, 0, 0, 0;
      assert stores + [] == stores;
      while segments > 0
        invariant segments <= 2
        invariant Given(old(requests), accept, true)
        invariant Reached(b, 2 - segments, fwcode, fwclen, start)
        invariant stores == old(stores) + FirstSegments(b, 2 - segments)
      {
        SegmentDone(b, 2 - segments, fwcode, fwclen, start);
        SegmentsGrow(old(stores), stores, b, 2 - segments, fwcode, fwclen, start);
        var addr: u32, size: nat := SegAddr(b, fwcode), SegSize(b, fwcode);
        start := if start == 0 then addr else start;
        fwclen := (fwclen + 4 * size) % TWO32;
        if b.size < fwclen {
          return TooLong;
        }
        var ok := LoadSegment(b, fwcode, addr, size, accept);
        if !ok {
          return Refused;
        }
        fwcode := fwcode + size;
        segments := segments - 1;
      }
      return Loaded(start);
    }

    /** The whole load, for an adapter without a dump template in its image. */
    method LoadBlob(b: Blob, accept: nat -> bool) returns (r: Result)
      requires Valid()
      modifies dcode, `stores, `requests
      ensures r.TooShort? <==> b.size < 32
      ensures r.BadVersion? <==> b.size >= 32 && BadWords(b)
      ensures r.TooLong? ==> !SizesPass(b)
      ensures Given(old(requests), accept, !r.Refused?)
      ensures r.Loaded? ==> SizesPass(b) && stores == old(stores) + Image(b)
      ensures r.Loaded? ==> r.start == if SegAddr(b, 0) != 0 then SegAddr(b, 0) else SegAddr(b, SegSize(b, 0))
    {
      if b.size < 32 {
        return TooShort;
      }
      var bad := CheckVersion(b);
      if bad {
        return BadVersion;
      }
      r := LoadSegments(b, accept);
    }
  }
}
