/**
 Cutting a scatter list into protection intervals (section 4.22 of T10 SBC-3): a resumable cursor
 yields one fragment at a time, and after the last fragment of each block the 8-byte protection
 tuple of that block follows.
 */
module DifBlocks {
  import opened Words
  import opened IocbFormat

  // ---------- scatter lists as bytes ----------

  // The bus addresses from a on, one per byte.
  ghost function Range(a: nat, len: nat): (r: seq<nat>)
    ensures |r| == len
    decreases len, a
  {
    if len == 0 then [] else [a] + Range(a + 1, len - 1)
  }

  lemma {:induction false} RangeSplits(a: nat, m: nat, n: nat)
    ensures Range(a, m + n) == Range(a, m) + Range(a + m, n)
    decreases m
  {
    if m > 0 {
      RangeSplits(a + 1, m - 1, n);
      assert Range(a, m + n) == [a] + (Range(a + 1, m - 1) + Range(a + m, n));
    }
  }

  ghost function Bytes(d: Dsd): seq<nat> { Range(d.addr, d.len) }

  ghost function AllBytes(l: seq<Dsd>): seq<nat> {
    if l == [] then [] else Bytes(l[0]) + AllBytes(l[1..])
  }

  function Total(l: seq<Dsd>): nat { if l == [] then 0 else l[0].len + Total(l[1..]) }

  lemma {:induction false} AllBytesLength(l: seq<Dsd>)
    ensures |AllBytes(l)| == Total(l)
  {
    if l != [] { AllBytesLength(l[1..]); }
  }

  // DMA mapping leaves no empty segment.
  predicate Mapped(l: seq<Dsd>) { forall i | 0 <= i < |l| :: l[i].len > 0 }

  // ---------- the cursor ----------

  // Position in a list: segment and bytes of it already used; numBytes counts finished blocks'
  // bytes, totPartial the bytes of the block in progress.
  datatype Cursor = Cursor(curSg: nat, bytesConsumed: nat, numBytes: nat, totPartial: nat)

  const START := Cursor(0, 0, 0, 0)

  predicate On(l: seq<Dsd>, blk: nat, c: Cursor) {
    && Mapped(l) && c.totPartial < blk && c.curSg <= |l|
    && (if c.curSg == |l| then c.bytesConsumed == 0 else c.bytesConsumed < l[c.curSg].len)
  }

  datatype Taken = Taken(next: Cursor, d: Dsd, partial: bool)

  function Take(l: seq<Dsd>, blk: nat, c: Cursor): Taken
    requires On(l, blk, c) && c.curSg < |l|
  {
    var sg := l[c.curSg];
    var left := sg.len - c.bytesConsumed;
    var whole := c.totPartial + left >= blk;
    var len := if whole then blk - c.totPartial else left;
    var used := c.bytesConsumed + len;
    Taken(
      Cursor(if used == sg.len then c.curSg + 1 else c.curSg,
             if used == sg.len then 0 else used,
             if whole then c.numBytes + blk else c.numBytes,
             if whole then 0 else c.totPartial + len),
      Dsd(sg.addr + c.bytesConsumed, len),
      !whole)
  }

  /** The bookkeeping block the counting pass and the walkers keep on their stack. */
  class Sgx {
    const sgl: seq<Dsd>
    const totBytes: nat
    var dmaAddr: nat
    var dmaLen: nat
    var curSg: nat
    var bytesConsumed: nat
    var numBytes: nat
    var totPartial: nat
    var numSg: nat

    constructor (sgl: seq<Dsd>, totBytes: nat)
      ensures this.sgl == sgl && this.totBytes == totBytes && At() == START && numSg == 0
    {
      this.sgl, this.totBytes := sgl, totBytes;
      dmaAddr, dmaLen, curSg, bytesConsumed, numBytes, totPartial, numSg := 0, 0, 0, 0, 0, 0, 0;
    }

    function At(): Cursor
      reads this
    {
      Cursor(curSg, bytesConsumed, numBytes, totPartial)
    }

    /** One fragment, or none once every byte has been handed out in whole blocks. */
    method GetOneBlockSg(blk: nat) returns (more: bool, partial: bool)
      requires On(sgl, blk, At())
      requires numBytes != totBytes ==> curSg < |sgl|
      modifies this
      ensures more <==> old(numBytes) != totBytes
      ensures !more ==> At() == old(At())
      ensures more ==> Taken(At(), Dsd(dmaAddr, dmaLen), partial) == Take(sgl, blk, old(At()))
      ensures more ==> On(sgl, blk, At()) && dmaLen > 0
      ensures more ==> numSg - old(numSg) == curSg - old(curSg)
    {
      more, partial := false, true;
      if numBytes == totBytes { return; }
      var sg := sgl[curSg];
      dmaAddr := sg.addr + bytesConsumed;
      if totPartial + (sg.len - bytesConsumed) >= blk {
        dmaLen := blk - totPartial;
        totPartial := 0;
        numBytes := numBytes + blk;
        partial := false;
      } else {
        dmaLen := sg.len - bytesConsumed;
        totPartial := totPartial + dmaLen;
        partial := true;
      }
      bytesConsumed := bytesConsumed + dmaLen;
      if sg.len == bytesConsumed {
        numSg := numSg + 1;
        curSg := curSg + 1;
        bytesConsumed := 0;
      }
      more := true;
    }
  }

  // Bytes of the list the cursor has not handed out yet.
  ghost function Rest(l: seq<Dsd>, c: Cursor): seq<nat> {
    Tail(l, c.curSg, c.bytesConsumed)
  }

  /** A fragment is never empty, and is exactly the next bytes of the list. */
  lemma TakeSplitsRest(l: seq<Dsd>, blk: nat, c: Cursor)
    requires On(l, blk, c) && c.curSg < |l|
    ensures var t := Take(l, blk, c);
            && On(l, blk, t.next) && t.d.len > 0
            && Rest(l, c) == Bytes(t.d) + Rest(l, t.next)
            && t.d.len <= blk - c.totPartial
            && (!t.partial <==> t.d.len == blk - c.totPartial)
  {
    SplitTail(l, c.curSg, c.bytesConsumed, Take(l, blk, c).d);
  }

  // What a segment holds from byte from on.
  ghost function From(sg: Dsd, from: nat): seq<nat> {
    if from > sg.len then [] else Range(sg.addr + from, sg.len - from)
  }

  lemma SplitSegment(sg: Dsd, from: nat, d: Dsd)
    requires from + d.len <= sg.len && d.addr == sg.addr + from
    ensures From(sg, from) == Bytes(d) + From(sg, from + d.len)
  {
    RangeSplits(d.addr, d.len, sg.len - from - d.len);
  }

  // What a list holds from byte from of segment i on.
  ghost function Tail(l: seq<Dsd>, i: nat, from: nat): seq<nat> {
    if i >= |l| then [] else From(l[i], from) + AllBytes(l[i + 1..])
  }

  lemma TailFromStart(l: seq<Dsd>, i: nat)
    requires i <= |l|
    ensures Tail(l, i, 0) == AllBytes(l[i..])
  {
    if i < |l| { assert l[i..][0] == l[i] && l[i..][1..] == l[i + 1..]; }
  }

  lemma SplitTail(l: seq<Dsd>, i: nat, from: nat, d: Dsd)
    requires i < |l| && from + d.len <= l[i].len && d.addr == l[i].addr + from
    ensures Tail(l, i, from) ==
            Bytes(d) + (if from + d.len == l[i].len then Tail(l, i + 1, 0) else Tail(l, i, from + d.len))
  {
    SplitSegment(l[i], from, d);
    var rest := AllBytes(l[i + 1..]);
    var mid := From(l[i], from + d.len);
    assert (Bytes(d) + mid) + rest == Bytes(d) + (mid + rest);
    if from + d.len == l[i].len {
      assert mid + rest == rest;
      TailFromStart(l, i + 1);
    }
  }

  // ---------- the counting pass ----------

  // Fragments handed out from the cursor on; None when the list ends before tot bytes are reached
  // in whole blocks.
  function CountFrom(l: seq<Dsd>, blk: nat, tot: nat, c: Cursor): Option<nat>
    decreases Left(l, c)
  {
    if c.numBytes == tot then Some(0)
    else if !On(l, blk, c) || c.curSg == |l| then None
    else
      LeftShrinks(l, blk, c);
      match CountFrom(l, blk, tot, Take(l, blk, c).next)
      case None => None
      case Some(n) => Some(n + 1)
  }

  ghost function Left(l: seq<Dsd>, c: Cursor): nat { |Rest(l, c)| }

  lemma LeftShrinks(l: seq<Dsd>, blk: nat, c: Cursor)
    requires On(l, blk, c) && c.curSg < |l|
    ensures On(l, blk, Take(l, blk, c).next) && Left(l, Take(l, blk, c).next) < Left(l, c)
  {
    TakeSplitsRest(l, blk, c);
  }

  // Every byte is accounted for: finished blocks, the block in progress, and the rest.
  ghost predicate Accounted(l: seq<Dsd>, blk: nat, tot: nat, c: Cursor) {
    On(l, blk, c) && c.numBytes + c.totPartial + |Rest(l, c)| == tot
  }

  lemma StartAccounted(l: seq<Dsd>, blk: nat)
    requires Mapped(l) && blk > 0
    ensures Accounted(l, blk, Total(l), START) && Rest(l, START) == AllBytes(l)
  {
    AllBytesLength(l);
    TailFromStart(l, 0);
    assert l[0..] == l;
  }

  lemma TakeAccounted(l: seq<Dsd>, blk: nat, tot: nat, c: Cursor)
    requires Accounted(l, blk, tot, c) && c.curSg < |l|
    ensures Accounted(l, blk, tot, Take(l, blk, c).next)
  {
    TakeSplitsRest(l, blk, c);
  }

  // n whole blocks, in bytes.
  function Whole(n: nat, blk: nat): nat { if n == 0 then 0 else blk + Whole(n - 1, blk) }

  lemma {:induction false} WholeIsProduct(n: nat, blk: nat)
    requires blk > 0
    ensures Whole(n, blk) == n * blk && Whole(n, blk) % blk == 0 && Whole(n, blk) / blk == n
  {
    if n > 0 { WholeIsProduct(n - 1, blk); }
    assert n * blk == (if n == 0 then 0 else (n - 1) * blk + blk);
    DivModUnique(Whole(n, blk), blk, n, 0);
  }

  /** With n blocks still to come there is a segment to take from, and a finished block leaves n-1. */
  lemma BlocksToCome(l: seq<Dsd>, blk: nat, tot: nat, c: Cursor, n: nat)
    requires Accounted(l, blk, tot, c) && c.numBytes + Whole(n, blk) == tot
    ensures n == 0 <==> c.numBytes == tot
    ensures n == 0 ==> c.totPartial == 0 && Rest(l, c) == []
    ensures n > 0 ==>
              && c.curSg < |l| && Accounted(l, blk, tot, Take(l, blk, c).next)
              && Take(l, blk, c).next.numBytes + Whole(if Take(l, blk, c).partial then n else n - 1, blk) == tot
              && Left(l, Take(l, blk, c).next) < Left(l, c)
  {
    if n > 0 {
      assert Whole(n, blk) >= blk;
      TakeAccounted(l, blk, tot, c);
      TakeSplitsRest(l, blk, c);
    }
  }

  lemma {:induction false} CountEnds(l: seq<Dsd>, blk: nat, tot: nat, c: Cursor, n: nat)
    requires Accounted(l, blk, tot, c) && c.numBytes + Whole(n, blk) == tot
    ensures CountFrom(l, blk, tot, c).Some?
    decreases Left(l, c)
  {
    BlocksToCome(l, blk, tot, c, n);
    if n > 0 {
      var t := Take(l, blk, c);
      CountEnds(l, blk, tot, t.next, if t.partial then n else n - 1);
    }
  }

  lemma {:induction false} CountedBlocks(l: seq<Dsd>, blk: nat, tot: nat, c: Cursor) returns (n: nat)
    requires On(l, blk, c) && CountFrom(l, blk, tot, c).Some?
    ensures c.numBytes + Whole(n, blk) == tot
    decreases Left(l, c)
  {
    n := 0;
    if c.numBytes != tot {
      LeftShrinks(l, blk, c);
      n := CountedBlocks(l, blk, tot, Take(l, blk, c).next);
      if !Take(l, blk, c).partial { n := n + 1; }
    }
  }

  /**
   The counting pass, and with it the walk, ends inside the list exactly when the block size divides
   the transfer length; otherwise it runs past the last segment.
   */
  lemma CountEndsIffBlocksDivide(l: seq<Dsd>, blk: nat)
    requires Mapped(l) && blk > 0
    ensures CountFrom(l, blk, Total(l), START).Some? <==> Total(l) % blk == 0
  {
    var tot := Total(l);
    StartAccounted(l, blk);
    if tot % blk == 0 {
      WholeIsProduct(tot / blk, blk);
      CountEnds(l, blk, tot, START, tot / blk);
    }
    if CountFrom(l, blk, tot, START).Some? {
      var n := CountedBlocks(l, blk, tot, START);
      WholeIsProduct(n, blk);
    }
  }

  // A walk with n blocks still to come can go on until it has handed out every byte.
  ghost predicate Ready(l: seq<Dsd>, blk: nat, tot: nat, c: Cursor, n: nat) {
    && Accounted(l, blk, tot, c) && c.numBytes + Whole(n, blk) == tot
    && CountFrom(l, blk, tot, c).Some? && (c.numBytes != tot ==> c.curSg < |l|)
  }

  lemma StartReady(l: seq<Dsd>, blk: nat)
    requires Mapped(l) && blk > 0 && Total(l) % blk == 0
    ensures Ready(l, blk, Total(l), START, Total(l) / blk)
  {
    StartAccounted(l, blk);
    WholeIsProduct(Total(l) / blk, blk);
    CountEnds(l, blk, Total(l), START, Total(l) / blk);
    BlocksToCome(l, blk, Total(l), START, Total(l) / blk);
  }

  lemma StaysReady(l: seq<Dsd>, blk: nat, tot: nat, c: Cursor, n: nat)
    requires Ready(l, blk, tot, c, n) && c.numBytes != tot
    ensures n > 0
    ensures var t := Take(l, blk, c);
            && Ready(l, blk, tot, t.next, if t.partial then n else n - 1)
            && CountFrom(l, blk, tot, c).value == 1 + CountFrom(l, blk, tot, t.next).value
            && Left(l, t.next) < Left(l, c)
  {
    BlocksToCome(l, blk, tot, c, n);
    var t := Take(l, blk, c);
    var n' := if t.partial then n else n - 1;
    CountEnds(l, blk, tot, t.next, n');
    BlocksToCome(l, blk, tot, t.next, n');
  }

  /** The first pass of the DIF submission: one count per fragment. */
  method CountFragments(l: seq<Dsd>, blk: nat) returns (nseg: nat)
    requires Mapped(l) && blk > 0 && Total(l) % blk == 0
    ensures CountFrom(l, blk, Total(l), START) == Some(nseg)
  {
    var sgx := new Sgx(l, Total(l));
    ghost var tot, c := Total(l), START;
    ghost var n: nat := Total(l) / blk;
    StartReady(l, blk);
    nseg := 0;
    while true
      invariant sgx.sgl == l && sgx.totBytes == tot && fresh(sgx) && sgx.At() == c
      invariant Ready(l, blk, tot, c, n)
      invariant nseg + CountFrom(l, blk, tot, c).value == CountFrom(l, blk, tot, START).value
      decreases Left(l, c)
    {
      if c.numBytes != tot { StaysReady(l, blk, tot, c, n); }
      var more, partial := sgx.GetOneBlockSg(blk);
      if !more { break; }
      nseg := nseg + 1;
      n := if partial then n else n - 1;
      c := sgx.At();
    }
  }

  // ---------- protection tuples ----------

  // A multiple of the tuple size.
  predicate Eights(n: nat) { n == 0 || (n >= 8 && Eights(n - 8)) }

  lemma {:induction false} EightsAreMultiples(n: nat)
    ensures Eights(n) <==> n % 8 == 0
  {
    if n >= 8 { EightsAreMultiples(n - 8); }
  }

  // A protection list holds whole 8-byte tuples in every segment.
  predicate TupleSegments(l: seq<Dsd>) { Mapped(l) && forall i | 0 <= i < |l| :: Eights(l[i].len) }

  datatype ProtCursor = ProtCursor(curSg: nat, offset: nat)

  predicate OnProt(l: seq<Dsd>, p: ProtCursor) {
    && TupleSegments(l) && p.curSg <= |l|
    && (if p.curSg == |l| then p.offset == 0 else p.offset < l[p.curSg].len && Eights(p.offset))
  }

  function TupleAt(l: seq<Dsd>, p: ProtCursor): Dsd
    requires OnProt(l, p) && p.curSg < |l|
  {
    Dsd(l[p.curSg].addr + p.offset, 8)
  }

  function NextTuple(l: seq<Dsd>, p: ProtCursor): ProtCursor
    requires OnProt(l, p) && p.curSg < |l|
  {
    if p.offset + 8 == l[p.curSg].len then ProtCursor(p.curSg + 1, 0) else ProtCursor(p.curSg, p.offset + 8)
  }

  ghost function ProtRest(l: seq<Dsd>, p: ProtCursor): seq<nat> {
    Tail(l, p.curSg, p.offset)
  }

  lemma NextTupleOn(l: seq<Dsd>, p: ProtCursor)
    requires OnProt(l, p) && p.curSg < |l|
    ensures p.offset + 8 <= l[p.curSg].len && OnProt(l, NextTuple(l, p))
  {
    EightsFit(p.offset, l[p.curSg].len);
  }

  lemma SplitEight(l: seq<Dsd>, i: nat, off: nat)
    requires i < |l| && off + 8 <= l[i].len
    ensures Tail(l, i, off) == Bytes(Dsd(l[i].addr + off, 8)) +
                               (if off + 8 == l[i].len then Tail(l, i + 1, 0) else Tail(l, i, off + 8))
  {
    SplitTail(l, i, off, Dsd(l[i].addr + off, 8));
  }

  lemma TupleSplitsRest(l: seq<Dsd>, p: ProtCursor)
    requires OnProt(l, p) && p.curSg < |l|
    ensures OnProt(l, NextTuple(l, p))
    ensures ProtRest(l, p) == Bytes(TupleAt(l, p)) + ProtRest(l, NextTuple(l, p))
  {
    NextTupleOn(l, p);
    SplitEight(l, p.curSg, p.offset);
  }

  lemma {:induction false} EightsFit(off: nat, len: nat)
    requires off < len && Eights(off) && Eights(len)
    ensures off + 8 <= len && Eights(off + 8)
  {
    if off > 0 { EightsFit(off - 8, len - 8); }
  }

  // ---------- the emitting pass ----------

  // Everything the no-bundling walk emits: each fragment, and after a block's last one its tuple.
  function Emission(l: seq<Dsd>, prot: seq<Dsd>, blk: nat, tot: nat, c: Cursor, p: ProtCursor): Option<seq<Dsd>>
    decreases Left(l, c)
  {
    if c.numBytes == tot then Some([])
    else if !On(l, blk, c) || c.curSg == |l| || !OnProt(prot, p) then None
    else
      LeftShrinks(l, blk, c);
      var t := Take(l, blk, c);
      if t.partial then
        Prepend([t.d], Emission(l, prot, blk, tot, t.next, p))
      else if p.curSg == |prot| then None
      else
        Prepend([t.d, TupleAt(prot, p)], Emission(l, prot, blk, tot, t.next, NextTuple(prot, p)))
  }

  function Prepend(ds: seq<Dsd>, rest: Option<seq<Dsd>>): Option<seq<Dsd>> {
    match rest case None => None case Some(r) => Some(ds + r)
  }

  // Reference reader of the emitted stream: non-empty fragments of the current block, none crossing
  // its end, then a descriptor for exactly the block's eight tuple bytes, and on to the next block.
  // owed is what the block in progress still lacks.
  ghost predicate BlockByBlock(ds: seq<Dsd>, data: seq<nat>, tuples: seq<nat>, blk: nat, owed: nat)
    decreases |data|
  {
    if data == [] then ds == [] && owed == blk
    else
      && ds != [] && 0 < ds[0].len <= owed && ds[0].len <= |data|
      && Bytes(ds[0]) == data[..ds[0].len]
      && if ds[0].len < owed then BlockByBlock(ds[1..], data[ds[0].len..], tuples, blk, owed - ds[0].len)
         else |ds| >= 2 && |tuples| >= 8 && Bytes(ds[1]) == tuples[..8]
              && BlockByBlock(ds[2..], data[ds[0].len..], tuples[8..], blk, blk)
  }

  // What the adapter transfers: each block's bytes, then its tuple.
  ghost function Interleaved(data: seq<nat>, tuples: seq<nat>, blk: nat, owed: nat): seq<nat>
    decreases |data|
  {
    if owed == 0 || owed > |data| || |tuples| < 8 then []
    else data[..owed] + tuples[..8] + Interleaved(data[owed..], tuples[8..], blk, blk)
  }

  lemma MoreOfBlock(ds: seq<Dsd>, d: Dsd, data: seq<nat>, tuples: seq<nat>, blk: nat, owed: nat)
    requires BlockByBlock(ds, data, tuples, blk, owed) && 0 < d.len && 0 < owed && data != []
    ensures BlockByBlock([d] + ds, Bytes(d) + data, tuples, blk, d.len + owed)
  {
    assert (Bytes(d) + data)[..d.len] == Bytes(d) && (Bytes(d) + data)[d.len..] == data;
    assert ([d] + ds)[1..] == ds;
  }

  lemma EndOfBlock(ds: seq<Dsd>, d: Dsd, tuple: Dsd, data: seq<nat>, tuples: seq<nat>, blk: nat)
    requires BlockByBlock(ds, data, tuples, blk, blk) && 0 < d.len && tuple.len == 8
    ensures BlockByBlock([d, tuple] + ds, Bytes(d) + data, Bytes(tuple) + tuples, blk, d.len)
  {
    assert (Bytes(d) + data)[..d.len] == Bytes(d) && (Bytes(d) + data)[d.len..] == data;
    assert (Bytes(tuple) + tuples)[..8] == Bytes(tuple) && (Bytes(tuple) + tuples)[8..] == tuples;
    assert ([d, tuple] + ds)[2..] == ds;
  }

  // What the walk from c and p on emits is what the reference reader expects there.
  ghost predicate Emits(l: seq<Dsd>, prot: seq<Dsd>, blk: nat, tot: nat, c: Cursor, p: ProtCursor) {
    var e := Emission(l, prot, blk, tot, c, p);
    c.totPartial < blk && e.Some? && BlockByBlock(e.value, Rest(l, c), ProtRest(prot, p), blk, blk - c.totPartial)
  }

  lemma EmitsFragment(l: seq<Dsd>, prot: seq<Dsd>, blk: nat, tot: nat, c: Cursor, p: ProtCursor)
    requires On(l, blk, c) && c.numBytes != tot && c.curSg < |l| && OnProt(prot, p) && Take(l, blk, c).partial
    requires Emits(l, prot, blk, tot, Take(l, blk, c).next, p) && Rest(l, Take(l, blk, c).next) != []
    ensures Emits(l, prot, blk, tot, c, p)
  {
    TakeSplitsRest(l, blk, c);
    var t := Take(l, blk, c);
    MoreOfBlock(Emission(l, prot, blk, tot, t.next, p).value, t.d, Rest(l, t.next), ProtRest(prot, p), blk,
                blk - t.next.totPartial);
  }

  lemma EmitsTuple(l: seq<Dsd>, prot: seq<Dsd>, blk: nat, tot: nat, c: Cursor, p: ProtCursor)
    requires On(l, blk, c) && c.numBytes != tot && c.curSg < |l| && !Take(l, blk, c).partial
    requires OnProt(prot, p) && p.curSg < |prot|
    requires Emits(l, prot, blk, tot, Take(l, blk, c).next, NextTuple(prot, p))
    ensures Emits(l, prot, blk, tot, c, p)
  {
    TakeSplitsRest(l, blk, c);
    TupleSplitsRest(prot, p);
    var t, p' := Take(l, blk, c), NextTuple(prot, p);
    EndOfBlock(Emission(l, prot, blk, tot, t.next, p').value, t.d, TupleAt(prot, p), Rest(l, t.next),
               ProtRest(prot, p'), blk);
  }

  /**
   Main result: from any point of the walk with n blocks still to come and a tuple for each, the
   walk succeeds and emits, block by block, exactly the data followed by the tuple.
   */
  lemma {:induction false} WalkEmitsBlocks(l: seq<Dsd>, prot: seq<Dsd>, blk: nat, tot: nat, c: Cursor,
                                          p: ProtCursor, n: nat)
    requires Accounted(l, blk, tot, c) && c.numBytes + Whole(n, blk) == tot
    requires OnProt(prot, p) && |ProtRest(prot, p)| >= 8 * n
    ensures Emits(l, prot, blk, tot, c, p)
    decreases Left(l, c)
  {
    BlocksToCome(l, blk, tot, c, n);
    if n > 0 {
      var t := Take(l, blk, c);
      if t.partial {
        WalkEmitsBlocks(l, prot, blk, tot, t.next, p, n);
        BlocksToCome(l, blk, tot, t.next, n);
        EmitsFragment(l, prot, blk, tot, c, p);
      } else {
        TupleSplitsRest(prot, p);
        WalkEmitsBlocks(l, prot, blk, tot, t.next, NextTuple(prot, p), n - 1);
        EmitsTuple(l, prot, blk, tot, c, p);
      }
    }
  }

  lemma InterleavedFragment(data: seq<nat>, tuples: seq<nat>, blk: nat, owed: nat, n: nat)
    requires n < owed <= |data| && |tuples| >= 8
    ensures Interleaved(data, tuples, blk, owed) == data[..n] + Interleaved(data[n..], tuples, blk, owed - n)
  {
    assert data[n..][..owed - n] == data[n..owed] && data[n..][owed - n..] == data[owed..];
    var rest := Interleaved(data[owed..], tuples[8..], blk, blk);
    assert data[..owed] + tuples[..8] + rest == data[..n] + (data[n..owed] + tuples[..8] + rest);
  }

  /** Read as bytes, a stream the reference accepts is each block followed by its tuple. */
  lemma {:induction false} BlocksAreInterleaved(ds: seq<Dsd>, data: seq<nat>, tuples: seq<nat>, blk: nat, owed: nat)
    requires BlockByBlock(ds, data, tuples, blk, owed) && 0 < owed <= blk
    ensures data != [] ==> owed <= |data| && |tuples| >= 8
    ensures AllBytes(ds) == Interleaved(data, tuples, blk, owed)
    decreases |data|
  {
    if data != [] {
      var n := ds[0].len;
      if n < owed {
        BlocksAreInterleaved(ds[1..], data[n..], tuples, blk, owed - n);
        InterleavedFragment(data, tuples, blk, owed, n);
      } else {
        BlocksAreInterleaved(ds[2..], data[n..], tuples[8..], blk, blk);
        assert ds[1..][0] == ds[1] && ds[1..][1..] == ds[2..];
        assert AllBytes(ds) == Bytes(ds[0]) + (Bytes(ds[1]) + AllBytes(ds[2..]));
      }
    }
  }

  /** The two passes agree: descriptors emitted are the fragments counted plus one per block. */
  lemma {:induction false} PassesAgree(l: seq<Dsd>, prot: seq<Dsd>, blk: nat, tot: nat, c: Cursor,
                                      p: ProtCursor, n: nat)
    requires Accounted(l, blk, tot, c) && c.numBytes + Whole(n, blk) == tot
    requires OnProt(prot, p) && |ProtRest(prot, p)| >= 8 * n
    ensures Emission(l, prot, blk, tot, c, p).Some? && CountFrom(l, blk, tot, c).Some?
    ensures |Emission(l, prot, blk, tot, c, p).value| == CountFrom(l, blk, tot, c).value + n
    decreases Left(l, c)
  {
    BlocksToCome(l, blk, tot, c, n);
    if n > 0 {
      var t := Take(l, blk, c);
      if t.partial {
        PassesAgree(l, prot, blk, tot, t.next, p, n);
      } else {
        TupleSplitsRest(prot, p);
        PassesAgree(l, prot, blk, tot, t.next, NextTuple(prot, p), n - 1);
      }
    }
  }
}
