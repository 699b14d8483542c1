/**
 The four multi-entry command layouts: how many data segment descriptors (DSDs) each
 64-byte entry holds, where they sit, and how a reader of the ring recovers them.
 */
module IocbFormat {
  import opened Words

  // One scatter element: bus address and byte length.
  datatype Dsd = Dsd(addr: nat, len: nat)

  // A request entry is 64 bytes, sixteen little-endian words.
  type Entry = e: seq<u32> | |e| == 16 witness [0, 0, 0, 0, 0, 0, 0, 0, 0, 0, 0, 0, 0, 0, 0, 0]

  const ZERO_ENTRY: Entry := [0, 0, 0, 0, 0, 0, 0, 0, 0, 0, 0, 0, 0, 0, 0, 0]

  datatype Format = Type2 | Type3 | Type7 | Bidir {
    // Entry type codes of the command and of its continuation entries.
    function Code(): u8 {
      match this case Type2 => 0x11 case Type3 => 0x19 case Type7 => 0x18 case Bidir => 0x75
    }
    function ContCode(): u8 { if Type2? then 0x02 else 0x0A }

    // DSDs held by the command entry and by a continuation entry.
    function First(): nat { match this case Type2 => 3 case Type3 => 2 case Type7 => 1 case Bidir => 1 }
    function Cont(): nat { if Type2? then 7 else 5 }
    function Capacity(e: nat): nat { if e == 0 then First() else Cont() }

    // Word offsets of the first DSD, and words per DSD.
    function Base(e: nat): nat {
      if e == 0 then (match this case Type2 => 10 case Type3 => 10 case Type7 => 13 case Bidir => 13)
      else if Type2? then 2 else 1
    }
    function Stride(): nat { if Type2? then 2 else 3 }
    function Offset(e: nat, slot: nat): nat { Base(e) + (if Type2? then 2 * slot else 3 * slot) }

    // What the words of a descriptor can carry: 32 bits of length, and 32 or 64 of address.
    function Carried(d: Dsd): Dsd {
      Dsd(if Type2? then d.addr % TWO32 else d.addr % TWO64, d.len % TWO32)
    }
  }

  /** A descriptor survives its words unchanged exactly when address and length have the format's width. */
  lemma CarriedIsExact(f: Format, d: Dsd)
    ensures f.Carried(d) == d <==> d.addr < (if f.Type2? then TWO32 else TWO64) && d.len < TWO32
  {
  }

  /** The slots of a descriptor-carrying entry end where the 64 bytes of the entry end, word sixteen. */
  lemma EntryIsFull(f: Format, e: nat)
    ensures f.Base(e) + f.Stride() * f.Capacity(e) == 16 && f.Stride() == (if f.Type2? then 2 else 3)
    ensures f.Capacity(e) > 0 && f.Offset(e, f.Capacity(e)) == 16
  {
  }

  lemma OffsetFits(f: Format, e: nat, slot: nat)
    requires slot < f.Capacity(e)
    ensures 1 <= f.Base(e) <= f.Offset(e, slot) && f.Offset(e, slot) + f.Stride() <= 16
    ensures e == 0 ==> f.Base(e) >= 10
    ensures f.Offset(e, slot + 1) == f.Offset(e, slot) + f.Stride()
  {
  }

  // ---------- the driver's entry count ----------

  function CalcIocbs(f: Format, dsds: nat): nat {
    if dsds > f.First() then
      1 + (dsds - f.First()) / f.Cont() + (if (dsds - f.First()) % f.Cont() != 0 then 1 else 0)
    else 1
  }

  // DSDs that fit into n entries.
  function Room(f: Format, n: nat): nat { if n == 0 then 0 else f.First() + (n - 1) * f.Cont() }

  /** The count is the least number of entries with room for every descriptor. */
  lemma CalcIsLeastThatFits(f: Format, dsds: nat, n: nat)
    ensures CalcIocbs(f, dsds) <= n <==> n >= 1 && dsds <= Room(f, n)
  {
    match f { case Type2 => case Type3 => case Type7 => case Bidir => }
  }

  /** The 8-bit entry count field keeps the reserved count exactly up to 1781, 1272 or 1271 descriptors. */
  lemma EntryCountFitsByte(f: Format, dsds: nat)
    ensures CalcIocbs(f, dsds) % TWO8 == CalcIocbs(f, dsds) <==>
            dsds <= (match f case Type2 => 1781 case Type3 => 1272 case Type7 => 1271 case Bidir => 1271)
    ensures dsds <= 1024 ==> CalcIocbs(f, dsds) < TWO8   // QLA_SG_ALL segments never truncate
  {
    CalcIsLeastThatFits(f, dsds, 255);
    assert CalcIocbs(f, dsds) % TWO8 == CalcIocbs(f, dsds) <==> CalcIocbs(f, dsds) <= 255;
  }

  // ---------- where the p-th descriptor goes ----------

  datatype Place = Place(entry: nat, slot: nat)

  // Slots are used in order; a full entry is followed by the next one.
  function PlaceOf(f: Format, p: nat): (r: Place)
    ensures r.slot < f.Capacity(r.entry)
  {
    if p == 0 then Place(0, 0)
    else
      var q := PlaceOf(f, p - 1);
      if q.slot + 1 < f.Capacity(q.entry) then Place(q.entry, q.slot + 1) else Place(q.entry + 1, 0)
  }

  function OffsetOf(f: Format, p: nat): nat { f.Offset(PlaceOf(f, p).entry, PlaceOf(f, p).slot) }

  // The entry being filled once p descriptors are placed, and the slots left in it.
  function CurrentEntry(f: Format, p: nat): nat { if p == 0 then 0 else PlaceOf(f, p - 1).entry }
  function Used(f: Format, p: nat): nat { if p == 0 then 0 else PlaceOf(f, p - 1).slot + 1 }
  function Avail(f: Format, p: nat): nat
  {
    f.Capacity(CurrentEntry(f, p)) - Used(f, p)
  }

  lemma NextInGroups(x: nat, c: nat)
    requires c == 5 || c == 7
    ensures x % c == c - 1 ==> (x + 1) / c == x / c + 1 && (x + 1) % c == 0
    ensures x % c != c - 1 ==> (x + 1) / c == x / c && (x + 1) % c == x % c + 1
  {
  }

  lemma {:induction false} PlaceClosedForm(f: Format, p: nat)
    ensures p < f.First() ==> PlaceOf(f, p) == Place(0, p)
    ensures p >= f.First() ==>
              PlaceOf(f, p) == Place(1 + (p - f.First()) / f.Cont(), (p - f.First()) % f.Cont())
  {
    if p > 0 {
      PlaceClosedForm(f, p - 1);
      if p > f.First() { NextInGroups(p - 1 - f.First(), f.Cont()); }
    }
  }

  /** The entries filled by the build loop are the entries reserved beforehand. */
  lemma PlacesUseCalcIocbs(f: Format, p: nat)
    ensures CurrentEntry(f, p) + 1 == CalcIocbs(f, p)
  {
    if p > 0 {
      PlaceClosedForm(f, p - 1);
      if p > f.First() { NextInGroups(p - 1 - f.First(), f.Cont()); }
    }
  }

  lemma {:induction false} PlacesApart(f: Format, p: nat, q: nat)
    requires q < p
    ensures PlaceOf(f, q).entry <= PlaceOf(f, p).entry
    ensures PlaceOf(f, q).entry == PlaceOf(f, p).entry ==> PlaceOf(f, q).slot < PlaceOf(f, p).slot
  {
    if q < p - 1 {
      PlacesApart(f, p - 1, q);
    }
  }

  // ---------- words of one descriptor ----------

  function PutDsd(f: Format, e: Entry, off: nat, d: Dsd): Entry
    requires off + f.Stride() <= 16
  {
    if f.Type2? then e[off := LSD(d.addr)][off + 1 := LSD(d.len)]
    else e[off := LSD(d.addr)][off + 1 := MSD(d.addr)][off + 2 := LSD(d.len)]
  }

  function GetDsd(f: Format, e: Entry, off: nat): Dsd
    requires off + f.Stride() <= 16
  {
    if f.Type2? then Dsd(e[off], e[off + 1])
    else Dsd(e[off + 1] * TWO32 + e[off], e[off + 2])
  }

  lemma PutThenGet(f: Format, e: Entry, off: nat, d: Dsd)
    requires off + f.Stride() <= 16
    ensures GetDsd(f, PutDsd(f, e, off, d), off) == f.Carried(d)
    ensures PutDsd(f, e, off, d)[off] == d.addr % 0x1_0000_0000
    ensures PutDsd(f, e, off, d)[off + f.Stride() - 1] == d.len % 0x1_0000_0000
    ensures !f.Type2? ==> PutDsd(f, e, off, d)[off + 1] == d.addr / 0x1_0000_0000 % 0x1_0000_0000
    ensures forall i | 0 <= i < 16 && !(off <= i < off + f.Stride()) :: PutDsd(f, e, off, d)[i] == e[i]
  {
    SplitAddress(d.addr);
  }

  // ---------- reading the ring back ----------

  // A reader walks the window entry by entry, taking each entry's slots in turn.
  function Gather(f: Format, window: seq<Entry>, e: nat, slot: nat, n: nat): Option<seq<Dsd>>
    requires slot <= f.Capacity(e)
    decreases n, if slot == f.Capacity(e) then 1 else 0
  {
    if n == 0 then Some([])
    else if e >= |window| then None
    else if slot == f.Capacity(e) then
      Gather(f, window, e + 1, 0, n)
    else
      OffsetFits(f, e, slot);
      match Gather(f, window, e, slot + 1, n - 1)
      case None => None
      case Some(rest) => Some([GetDsd(f, window[e], f.Offset(e, slot))] + rest)
  }

  // Every descriptor of ds sits at the place the driver computes for it.
  ghost predicate Placed(f: Format, window: seq<Entry>, ds: seq<Dsd>) {
    forall q {:trigger ds[q]} | 0 <= q < |ds| :: PlacedAt(f, window, PlaceOf(f, q), ds[q])
  }

  ghost predicate PlacedAt(f: Format, window: seq<Entry>, at: Place, d: Dsd) {
    && at.entry < |window|
    && f.Offset(at.entry, at.slot) + f.Stride() <= 16
    && GetDsd(f, window[at.entry], f.Offset(at.entry, at.slot)) == d
  }

  lemma GatherAt(f: Format, window: seq<Entry>, at: Place, d: Dsd, rest: seq<Dsd>)
    requires PlacedAt(f, window, at, d) && at.slot < f.Capacity(at.entry)
    requires Gather(f, window, at.entry, at.slot + 1, |rest|) == Some(rest)
    ensures Gather(f, window, at.entry, at.slot, |rest| + 1) == Some([d] + rest)
    ensures at.slot == 0 && at.entry > 0 ==>
              Gather(f, window, at.entry - 1, f.Capacity(at.entry - 1), |rest| + 1) == Some([d] + rest)
  {
    OffsetFits(f, at.entry, at.slot);
  }

  lemma WalkStands(f: Format, p: nat)
    ensures || PlaceOf(f, p) == Place(CurrentEntry(f, p), Used(f, p))
            || (PlaceOf(f, p) == Place(CurrentEntry(f, p) + 1, 0) && Used(f, p) == f.Capacity(CurrentEntry(f, p)))
  {
  }

  /** Walking the slots in turn recovers the descriptors, wherever in the list the walk stands. */
  lemma {:induction false} GatherRecovers(f: Format, window: seq<Entry>, ds: seq<Dsd>, p: nat)
    requires Placed(f, window, ds) && p <= |ds|
    ensures Gather(f, window, CurrentEntry(f, p), Used(f, p), |ds| - p) == Some(ds[p..])
    decreases |ds| - p
  {
    if p < |ds| {
      var at, rest := PlaceOf(f, p), ds[p + 1..];
      var e, u := CurrentEntry(f, p), Used(f, p);
      assert PlacedAt(f, window, at, ds[p]);
      GatherRecovers(f, window, ds, p + 1);
      assert Gather(f, window, at.entry, at.slot + 1, |rest|) == Some(rest);
      GatherAt(f, window, at, ds[p], rest);
      WalkStands(f, p);
      if at == Place(e, u) {
        assert Gather(f, window, e, u, |rest| + 1) == Some([ds[p]] + rest);
      } else {
        assert at.slot == 0 && at.entry == e + 1 && u == f.Capacity(e);
        assert Gather(f, window, e, u, |rest| + 1) == Some([ds[p]] + rest);
      }
      assert |rest| + 1 == |ds| - p && [ds[p]] + rest == ds[p..];
    } else {
      assert ds[p..] == [];
    }
  }

  // ---------- command headers ----------

  // The header words of a fresh command; every word not named here is cleared.
  function Header(f: Format, handle: u32, dsegs: u16, rdDsegs: u16): Entry {
    var e := ZERO_ENTRY[0 := f.Code()][1 := handle];
    match f
    case Bidir => e[3 := rdDsegs * TWO16 + dsegs]
    case Type7 => e[3 := dsegs]
    case Type2 => e[4 := dsegs * TWO16]
    case Type3 => e[4 := dsegs * TWO16]
  }

  // The entry count lives in the second byte of the first word.
  function WithEntryCount(f: Format, e: Entry, count: nat): Entry {
    e[0 := f.Code() + TWO8 * (count % TWO8)]
  }

  // The same on the first ten words alone.
  function Counted(f: Format, header: seq<u32>, count: nat): seq<u32>
    requires header != []
  {
    header[0 := f.Code() + TWO8 * (count % TWO8)]
  }

  datatype Decoded = Decoded(format: Format, handle: u32, entryCount: u8, first: seq<Dsd>, second: seq<Dsd>)

  function FormatOf(code: int): Option<Format> {
    if code == 0x11 then Some(Type2) else if code == 0x19 then Some(Type3)
    else if code == 0x18 then Some(Type7) else if code == 0x75 then Some(Bidir) else None
  }

  function DsegCounts(f: Format, e: Entry): (r: (u16, u16)) {
    match f
    case Bidir => (e[3] % TWO16, e[3] / TWO16)
    case Type7 => (e[3] % TWO16, 0)
    case Type2 => (e[4] / TWO16, 0)
    case Type3 => (e[4] / TWO16, 0)
  }

  // Continuation entries of the format carry nothing but their type in the first word.
  predicate Continued(f: Format, window: seq<Entry>) {
    forall k {:trigger window[k]} | 1 <= k < |window| :: window[k][0] == if f.Type2? then 0x02 else 0x0A
  }

  // What a reader of the published entries understands, from the words alone.
  function Decode(window: seq<Entry>): Option<Decoded> {
    if window == [] then None
    else
      match FormatOf(window[0][0] % TWO8)
      case None => None
      case Some(f) =>
        var (n, m) := DsegCounts(f, window[0]);
        match Gather(f, window, 0, 0, n + m)
        case None => None
        case Some(ds) =>
          if |ds| != n + m || !Continued(f, window) then None
          else Some(Decoded(f, window[0][1], window[0][0] / TWO8 % TWO8, ds[..n], ds[n..]))
  }

  // The published entries of one command: its counted header, and every descriptor in its place.
  ghost predicate IsCommand(f: Format, handle: u32, count: nat, first: seq<Dsd>, second: seq<Dsd>, window: seq<Entry>) {
    && window != [] && |first| < TWO16 && |second| < TWO16
    && window[0][..10] == Counted(f, Header(f, handle, |first|, |second|)[..10], count)
    && Placed(f, window, first + second)
    && forall k {:trigger window[k]} | 1 <= k < |window| :: window[k][0] == f.ContCode()
  }

  /** A reader of the published entries recovers the command: handle, entry count and both lists. */
  lemma {:induction false} CommandReadsBack(f: Format, handle: u32, count: nat, first: seq<Dsd>, second: seq<Dsd>,
                                           window: seq<Entry>)
    requires IsCommand(f, handle, count, first, second, window)
    requires second == [] || f.Bidir?
    ensures Decode(window) == Some(Decoded(f, handle, count % TWO8, first, second))
  {
    var ds, n, m := first + second, |first|, |second|;
    GatherRecovers(f, window, ds, 0);
    var h := WithEntryCount(f, Header(f, handle, n, m), count);
    assert ds[0..] == ds && ds[..n] == first && ds[n..] == second;
    HeaderReadsBack(f, handle, n, m, count);
    assert h[..10] == window[0][..10];
    assert forall i | 0 <= i < 10 :: window[0][i] == window[0][..10][i] == h[..10][i] == h[i];
  }

  /** The header words by their places in the entry: type, handle, and the descriptor counts of each format. */
  lemma HeaderLayout(f: Format, handle: u32, n: u16, m: u16, count: nat)
    ensures var h := WithEntryCount(f, Header(f, handle, n, m), count);
            && h[0] == (match f case Type2 => 0x11 case Type3 => 0x19 case Type7 => 0x18 case Bidir => 0x75)
                       + 0x100 * (count % 0x100)
            && h[1] == handle
            && (match f
                case Type7 => h[3] == n
                case Bidir => h[3] % 0x1_0000 == n && h[3] / 0x1_0000 == m
                case Type2 => h[4] == 0x1_0000 * n
                case Type3 => h[4] == 0x1_0000 * n)
  {
  }

  // What the header alone tells: format, handle word and entry count.
  function HeaderOf(e: Entry): Option<(Format, u32, u8)> {
    match FormatOf(e[0] % TWO8)
    case None => None
    case Some(f) => Some((f, e[1], e[0] / TWO8 % TWO8))
  }

  lemma HeaderOfCounted(f: Format, handle: u32, n: u16, m: u16, count: nat, e: Entry)
    requires e[..10] == Counted(f, Header(f, handle, n, m)[..10], count) && (m == 0 || f.Bidir?)
    ensures HeaderOf(e) == Some((f, handle, count % TWO8))
  {
    HeaderReadsBack(f, handle, n, m, count);
    var h := WithEntryCount(f, Header(f, handle, n, m), count);
    assert h[..10] == e[..10];
    assert e[0] == e[..10][0] == h[0] && e[1] == e[..10][1] == h[1];
  }

  lemma HeaderReadsBack(f: Format, handle: u32, n: u16, m: u16, count: nat)
    requires m == 0 || f.Bidir?
    ensures var h := WithEntryCount(f, Header(f, handle, n, m), count);
            && FormatOf(h[0] % TWO8) == Some(f) && h[1] == handle
            && h[0] / TWO8 % TWO8 == count % TWO8 && DsegCounts(f, h) == (n, m)
  {
    match f { case Type2 => case Type3 => case Type7 => case Bidir => }
  }

  // ---------- one more descriptor ----------

  function PutAt(f: Format, window: seq<Entry>, at: Place, d: Dsd): seq<Entry>
    requires at.entry < |window| && f.Offset(at.entry, at.slot) + f.Stride() <= 16
  {
    window[at.entry := PutDsd(f, window[at.entry], f.Offset(at.entry, at.slot), d)]
  }

  lemma PutKeepsEarlier(f: Format, window: seq<Entry>, at: Place, d: Dsd, earlier: Place, d': Dsd)
    requires at.entry < |window| && f.Offset(at.entry, at.slot) + f.Stride() <= 16
    requires PlacedAt(f, window, earlier, d')
    requires earlier.entry == at.entry ==> earlier.slot < at.slot
    ensures PlacedAt(f, PutAt(f, window, at, d), earlier, d')
  {
    PutThenGet(f, window[at.entry], f.Offset(at.entry, at.slot), d);
    if earlier.entry == at.entry {
      assert f.Offset(at.entry, earlier.slot) + f.Stride() <= f.Offset(at.entry, at.slot);
    }
  }

  /** Placing the next descriptor in its slot keeps the earlier ones and adds this one. */
  lemma PlaceNext(f: Format, window: seq<Entry>, done: seq<Dsd>, d: Dsd)
    requires Placed(f, window, done) && |window| == CurrentEntry(f, |done| + 1) + 1
    ensures var at := PlaceOf(f, |done|);
            && at.entry == |window| - 1
            && f.Offset(at.entry, at.slot) + f.Stride() <= 16
            && Placed(f, PutAt(f, window, at, d), done + [f.Carried(d)])
  {
    var p, at := |done|, PlaceOf(f, |done|);
    OffsetFits(f, at.entry, at.slot);
    var w, all := PutAt(f, window, at, d), done + [f.Carried(d)];
    forall q | 0 <= q < p + 1 ensures PlacedAt(f, w, PlaceOf(f, q), all[q]) {
      if q < p {
        PlacesApart(f, p, q);
        PutKeepsEarlier(f, window, at, d, PlaceOf(f, q), done[q]);
      } else {
        PutThenGet(f, window[at.entry], f.Offset(at.entry, at.slot), d);
      }
    }
  }

  function CarriedAll(f: Format, segs: seq<Dsd>): seq<Dsd> {
    seq(|segs|, i requires 0 <= i < |segs| => f.Carried(segs[i]))
  }
}
