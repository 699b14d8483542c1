/** Machine words, the driver's word-splitting macros, and the arithmetic of a circular index. */
module Words {

  const TWO8: int := 0x100
  const TWO16: int := 0x1_0000
  const TWO32: int := 0x1_0000_0000
  const TWO64: int := 0x1_0000_0000_0000_0000

  type u8 = x: int | 0 <= x < 0x100
  type u16 = x: int | 0 <= x < 0x1_0000
  type u32 = x: int | 0 <= x < 0x1_0000_0000

  datatype Option<+T> = None | Some(value: T)

  // Low and high 32 bits of a DMA address; both casts keep only their own bits.
  function LSD(x: nat): u32 { x % TWO32 }

  function MSD(x: nat): u32 { x / TWO32 % TWO32 }

  // The two halves of a firmware handle.
  function LSW(x: u32): u16 { x % TWO16 }

  function MSW(x: u32): u16 { x / TWO16 }

  function MakeHandle(que: u16, handle: u16): u32 {
    que * TWO16 + handle
  }

  /** A packed handle names one queue, in its high half, and one slot, in its low half; every word is a packing. */
  lemma HandlePackingIsInvertible(que: u16, handle: u16, word: u32)
    ensures MakeHandle(que, handle) % 0x1_0000 == handle && LSW(word) == word % 0x1_0000
    ensures LSW(MakeHandle(que, handle)) == handle && MSW(MakeHandle(que, handle)) == que
    ensures MakeHandle(MSW(word), LSW(word)) == word
  {
  }

  /** The halves of an address give back the address exactly when it has at most 64 bits. */
  lemma SplitAddress(x: nat)
    ensures MSD(x) * TWO32 + LSD(x) == x % TWO64
    ensures MSD(x) * TWO32 + LSD(x) == x <==> x < TWO64
  {
    var h := x / TWO32;
    assert x == h * TWO32 + LSD(x);
    assert h == (h / TWO32) * TWO32 + h % TWO32;
    var r := MSD(x) * TWO32 + LSD(x);
    assert x == (h / TWO32) * TWO64 + r;
    DivModUnique(x, TWO64, h / TWO32, r);
  }

  // A word from its bytes, lowest first, and the word with its bytes reversed (swab32).
  function Word(a: u8, b: u8, c: u8, d: u8): u32 { a + TWO8 * (b + TWO8 * (c + TWO8 * d)) }

  function Swab(w: u32): u32 {
    Word(w / TWO8 / TWO8 / TWO8, w / TWO8 / TWO8 % TWO8, w / TWO8 % TWO8, w % TWO8)
  }

  /** The first byte of a word counts ones, the second 256s, and so on. */
  lemma WordIsLittleEndian(a: u8, b: u8, c: u8, d: u8)
    ensures Word(a, b, c, d) == a + 0x100 * b + 0x1_0000 * c + 0x100_0000 * d
  {
  }

  lemma WordParts(a: u8, b: u8, c: u8, d: u8)
    ensures var w := Word(a, b, c, d);
            && w % TWO8 == a && w / TWO8 % TWO8 == b && w / TWO8 / TWO8 % TWO8 == c && w / TWO8 / TWO8 / TWO8 == d
  {
    var w := Word(a, b, c, d);
    assert w % TWO8 == a && w / TWO8 == b + TWO8 * (c + TWO8 * d);
    assert w / TWO8 % TWO8 == b && w / TWO8 / TWO8 == c + TWO8 * d;
  }

  lemma SwabWord(a: u8, b: u8, c: u8, d: u8)
    ensures Swab(Word(a, b, c, d)) == Word(d, c, b, a)
  {
    WordParts(a, b, c, d);
  }

  /** Reversing the bytes twice gives the word back. */
  lemma SwabTwice(w: u32)
    ensures Swab(Swab(w)) == w
  {
    SwabWord(w / TWO8 / TWO8 / TWO8, w / TWO8 / TWO8 % TWO8, w / TWO8 % TWO8, w % TWO8);
  }

  // ---------- modular facts about positions ----------

  lemma {:induction false} DivModUnique(x: int, n: int, q: int, r: int)
    requires n > 0 && 0 <= r < n && x == q * n + r
    ensures x / n == q && x % n == r
  {
    var q', r' := x / n, x % n;
    assert (q - q') * n == r' - r;
    if q > q' {
      assert (q - q') * n >= n by { MulGrows(q - q', n); }
    } else if q < q' {
      assert (q' - q) * n >= n by { MulGrows(q' - q, n); }
    }
  }

  lemma MulGrows(a: int, n: int)
    requires a >= 1 && n >= 0
    ensures a * n >= n
  {
    assert a * n == n + (a - 1) * n;
  }

  // Advancing an index inside a ring of n slots by fewer than n+1 places.
  function Wrap(start: nat, k: nat, n: nat): nat
    requires start < n && k <= n
  {
    if start + k < n then start + k else start + k - n
  }

  // The slot of a position on a ring of n slots: the remainder, by repeated subtraction.
  function Slot(p: nat, n: nat): (r: nat)
    requires n > 0
    ensures r < n && (p < n ==> r == p)
  {
    if p < n then p else Slot(p - n, n)
  }

  lemma {:induction false} SlotIsRemainder(p: nat, n: nat)
    requires n > 0
    ensures Slot(p, n) == p % n
  {
    if p >= n {
      SlotIsRemainder(p - n, n);
      DivModUnique(p, n, (p - n) / n + 1, (p - n) % n);
    }
  }

  /** Going k places round from the slot of position p gives the slot of position p+k. */
  lemma {:induction false} WrapIsSlot(p: nat, k: nat, n: nat)
    requires n > 0 && k <= n
    ensures Wrap(Slot(p, n), k, n) == Slot(p + k, n)
  {
    if p >= n {
      WrapIsSlot(p - n, k, n);
    } else if p + k >= n {
      assert Slot(p + k, n) == Slot(p + k - n, n);
    }
  }
}
