/**
 The whole submission of a DIF command: a slot and a ring entry are reserved, the chains of its CRC
 context are built, and the entry is published or given back.
 */
module DifCommand {
  import opened Words
  import opened IocbFormat
  import opened DifBlocks
  import opened DsdChain
  import opened RingSpec
  import opened RequestQueue

  // How the protection data travel: in tuples between the blocks of the data list, or in a list of its own.
  datatype Kind = Interleave | Bundle

  // What the builder leaves behind: the pool, the data link and the protection link of the context, the lists
  // taken for the data, and the sixteen-bit descriptor counts of the command.
  datatype Context = Context(pool: Pool, data: Dsd, dif: Dsd, lists: seq<nat>, tot: u16, totProt: u16)

  // The memory the builder works on: element contents, and elements the DMA pool will still hand out.
  datatype Memory = Memory(pool: Pool, supply: seq<nat>)

  // A transfer as the SCSI layer hands it over: n blocks, at most 65535 of them, with a tuple for each.
  ghost predicate Transfer(sgl: seq<Dsd>, prot: seq<Dsd>, blk: nat, n: nat) {
    && Mapped(sgl) && blk > 0 && Total(sgl) % blk == 0 && Total(sgl) == Whole(n, blk)
    && 0 < n < TWO16 && TupleSegments(prot) && Total(prot) >= 8 * n
    && |sgl| + |prot| < TWO16
  }

  // The adapter, following the links of the context, finds every block followed by its tuple, or both lists.
  ghost predicate ReadsBack(kind: Kind, sgl: seq<Dsd>, prot: seq<Dsd>, blk: nat, c: Context) {
    match kind
    case Interleave =>
      exists lists, ds ::
        && Found(c.pool, c.data, lists, ds)
        && AllBytes(ds) == DifBlocks.Interleaved(AllBytes(sgl), AllBytes(prot), blk, blk)
    case Bundle =>
      && (exists lists :: Found(c.pool, c.data, lists, sgl))
      && (exists lists :: Found(c.pool, c.dif, lists, prot))
  }

  // The lists the chains need, when the count has sixteen bits.
  function ListsNeeded(kind: Kind, sgl: seq<Dsd>, prot: seq<Dsd>, blk: nat, n: nat): nat {
    match kind
    case Interleave => CalcDsdLists(DsdChain.Counted(sgl, blk, n))
    case Bundle => CalcDsdLists(|sgl|) + CalcDsdLists(|prot|)
  }

  // Does the descriptor count of the command fit its sixteen bits?
  predicate CountFits(kind: Kind, sgl: seq<Dsd>, blk: nat, n: nat) {
    kind.Interleave? ==> DsdChain.Counted(sgl, blk, n) < TWO16
  }

  lemma EndedStays(pool: Pool, pool': Pool, head: Dsd, lists: seq<nat>, more: seq<nat>, ds: seq<Dsd>)
    requires Ended(pool, head, lists, ds) && Untouched(pool, pool', more)
    ensures Ended(pool', head, lists, ds)
  {
  }

  /** The chains of a bundling command: the data list, then the protection list. */
  method BuildBundled(sgl: seq<Dsd>, prot: seq<Dsd>, m: Memory, link: Dsd) returns (ok: bool, c: Context)
    requires |sgl| + |prot| < TWO16 && Unused(m.pool, m.supply)
    ensures ok <==> CalcDsdLists(|sgl|) + CalcDsdLists(|prot|) <= |m.supply|
    ensures c.tot == |sgl| + |prot| && c.totProt == |prot|
    ensures ok ==>
              && (exists lists :: Found(c.pool, c.data, lists, sgl))
              && (exists lists :: Found(c.pool, c.dif, lists, prot))
  {
    c := Context(m.pool, link, link, [], |sgl| + |prot|, |prot|);
    var pool, data, lists, supply;
    ok, pool, data, lists, supply := WalkSglist(sgl, c.tot - c.totProt, m.pool, link, m.supply);
    if !ok { return; }
    assert sgl[..|sgl|] == sgl && prot[..|prot|] == prot;
    var pool', dif, lists', supply';
    ok, pool', dif, lists', supply' := WalkSglist(prot, c.totProt, pool, link, supply);
    if !ok { return; }
    EndedStays(pool, pool', data, lists, lists', sgl);
    ChainReadsBack(pool', data, lists, sgl);
    ChainReadsBack(pool', dif, lists', prot);
    c := Context(pool', data, dif, lists, c.tot, c.totProt);
    assert Found(c.pool, c.data, lists, sgl) && Found(c.pool, c.dif, lists', prot);
  }

  lemma FoundInterleaved(sgl: seq<Dsd>, prot: seq<Dsd>, blk: nat, c: Context, lists: seq<nat>, ds: seq<Dsd>)
    requires Found(c.pool, c.data, lists, ds)
    requires AllBytes(ds) == DifBlocks.Interleaved(AllBytes(sgl), AllBytes(prot), blk, blk)
    ensures ReadsBack(Interleave, sgl, prot, blk, c)
  {
  }

  method ProtectionCount(tot: nat, blk: nat, ghost n: nat) returns (blocks: nat)
    requires blk > 0 && tot % blk == 0 && tot == Whole(n, blk)
    ensures blocks == n
  {
    blocks := CountBlocks(tot, blk);
    WholeInjective(blocks, n, blk);
  }

  /** The chain of an interleaving command. */
  method BuildInterleaved(sgl: seq<Dsd>, prot: seq<Dsd>, blk: nat, m: Memory, link: Dsd, ghost n: nat)
    returns (ok: bool, c: Context)
    requires Transfer(sgl, prot, blk, n) && Unused(m.pool, m.supply)
    ensures c.tot == DsdChain.Counted(sgl, blk, n) % TWO16 && c.totProt == n
    ensures DsdChain.Counted(sgl, blk, n) < TWO16 ==>
              && (ok <==> CalcDsdLists(DsdChain.Counted(sgl, blk, n)) <= |m.supply|)
              && (ok ==> ReadsBack(Interleave, sgl, prot, blk, c))
    ensures ok ==> (FitElements(c.pool, c.lists) <==> DsdChain.Counted(sgl, blk, n) < TWO16)
  {
    var blocks := ProtectionCount(Total(sgl), blk, n);
    var tot, pool, data, lists;
    ghost var ds;
    ok, tot, pool, data, lists, ds := BuildNoBundling(sgl, prot, blk, m.pool, link, m.supply, n);
    c := Context(pool, data, link, lists, tot, blocks);
    ToldInWords(|ds|, tot);
    if ok && |ds| < TWO16 { FoundInterleaved(sgl, prot, blk, c, lists, ds); }
  }

  /**
   qla24xx_build_scsi_crc_2_iocbs, as far as the chains go.  other stands for its remaining ways to fail:
   no context memory, or a long command of the wrong length.
   */
  method BuildContext(kind: Kind, sgl: seq<Dsd>, prot: seq<Dsd>, blk: nat, m: Memory, link: Dsd, other: bool,
                      ghost n: nat)
    returns (built: bool, c: Context)
    requires Transfer(sgl, prot, blk, n) && Unused(m.pool, m.supply)
    ensures CountFits(kind, sgl, blk, n) ==>
              && (built <==> other && ListsNeeded(kind, sgl, prot, blk, n) <= |m.supply|)
              && (built ==> ReadsBack(kind, sgl, prot, blk, c))
    ensures built && kind.Interleave? ==> (FitElements(c.pool, c.lists) <==> CountFits(kind, sgl, blk, n))
  {
    c := Context(m.pool, link, link, [], 0, 0);
    if !other { return false, c; }
    match kind
    case Interleave => built, c := BuildInterleaved(sgl, prot, blk, m, link, n);
    case Bundle => built, c := BuildBundled(sgl, prot, m, link);
  }

  /**
   qla24xx_dif_start_scsi as a whole.  The chains are built only when slot, mapping and room are granted.  A
   submission succeeds exactly if besides these the context can be built; then the entry is published, and
   what the adapter finds through its context is every block followed by its tuple, or both lists.  For
   interleaving commands this holds while the descriptor count has sixteen bits, and exactly then every list
   of the chain fits its pool element.
   */
  method StartDif(q: ReqQue, sp: Srb, mapped: bool, cmd: Entry, out: nat, ghost pos: nat,
                  kind: Kind, sgl: seq<Dsd>, prot: seq<Dsd>, blk: nat, m: Memory, link: Dsd, other: bool, ghost n: nat)
    returns (ok: bool, c: Context, ghost built: bool)
    requires q.Valid() && q.HandlesAgree() && sp !in q.outstanding[..] && q.CanRead(out, pos)
    requires Transfer(sgl, prot, blk, n) && Unused(m.pool, m.supply)
    modifies q, q.ring, q.outstanding, sp
    ensures q.Valid() && q.HandlesAgree() && q.DifDone(sp, mapped, cmd, built, pos, ok)
    ensures CountFits(kind, sgl, blk, n) ==>
              && (built <==> other && ListsNeeded(kind, sgl, prot, blk, n) <= |m.supply|)
              && (ok ==> ReadsBack(kind, sgl, prot, blk, c))
    ensures ok && kind.Interleave? ==> (FitElements(c.pool, c.lists) <==> CountFits(kind, sgl, blk, n))
  {
    c, built := Context(m.pool, link, link, [], 0, 0), other && ListsNeeded(kind, sgl, prot, blk, n) <= |m.supply|;
    StepsStaySound(q.View(), Request(1, 2, pos));
    ok := q.DifReserve(sp, mapped, cmd, out, pos);
    if ok {
      ok, c := BuildContext(kind, sgl, prot, blk, m, link, other, n);
      built := ok;
      q.DifConclude(sp, q.Named(cmd, sp), ok, old(q.ring[..]));
      if !ok { assert q.outstanding[..] == old(q.outstanding[..]); }
    }
  }
}
