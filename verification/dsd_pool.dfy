/**
 The adapter-wide pool of descriptor lists behind Command Type 6: lists are taken from a global
 free list, owned by a command while it is in flight, and spliced back when it is released.
 */
module DsdPool {
  import opened Words
  import opened IocbFormat
  import opened DifBlocks
  import opened DsdChain

  const NUM_DSD_CHAIN := 4096

  // A command in flight: the link in its IOCB, the lists it owns, and its descriptors.
  datatype Command = Command(head: Dsd, lists: seq<nat>, ds: seq<Dsd>)

  function InUse(cmds: seq<Command>): nat {
    if cmds == [] then 0 else |cmds[0].lists| + InUse(cmds[1..])
  }

  function Without(cmds: seq<Command>, k: nat): seq<Command>
    requires k < |cmds|
  {
    cmds[..k] + cmds[k + 1..]
  }

  lemma {:induction false} InUseAppend(cmds: seq<Command>, c: Command)
    ensures InUse(cmds + [c]) == InUse(cmds) + |c.lists|
  {
    if cmds != [] {
      InUseAppend(cmds[1..], c);
      assert (cmds + [c])[1..] == cmds[1..] + [c];
    } else {
      assert (cmds + [c])[1..] == [];
    }
  }

  lemma {:induction false} InUseWithout(cmds: seq<Command>, k: nat)
    requires k < |cmds|
    ensures InUse(Without(cmds, k)) == InUse(cmds) - |cmds[k].lists| && InUse(cmds) >= |cmds[k].lists|
  {
    if k == 0 {
      assert Without(cmds, 0) == cmds[1..];
    } else {
      InUseWithout(cmds[1..], k - 1);
      assert Without(cmds, k)[1..] == Without(cmds[1..], k - 1);
    }
  }

  predicate Distinct(s: seq<nat>) { forall i, j | 0 <= i < j < |s| :: s[i] != s[j] }

  predicate Apart(s: seq<nat>, t: seq<nat>) { forall x | x in s :: x !in t }

  // Free lists, owned lists and unallocated elements never overlap, and every owned chain reads back.
  ghost predicate Owned(pool: Pool, free: seq<nat>, supply: seq<nat>, cmds: seq<Command>) {
    && Distinct(free) && Distinct(supply) && Apart(free, supply)
    && (forall k | 0 <= k < |cmds| :: Holds(pool, free, supply, cmds[k]))
    && (forall j, k | 0 <= j < k < |cmds| :: Apart(cmds[j].lists, cmds[k].lists))
  }

  ghost predicate Holds(pool: Pool, free: seq<nat>, supply: seq<nat>, c: Command) {
    Ended(pool, c.head, c.lists, c.ds) && Apart(c.lists, free) && Apart(c.lists, supply)
  }

  class GlobalPool {
    var pool: Pool
    var gblDsdList: seq<nat>
    var gblDsdAvail: nat
    var gblDsdInuse: nat
    var supply: seq<nat>       // what the DMA pool will still hand out
    var cmds: seq<Command>     // commands in flight

    ghost predicate Valid()
      reads this
    {
      && Owned(pool, gblDsdList, supply, cmds)
      && gblDsdAvail == |gblDsdList|
      && gblDsdInuse == InUse(cmds)
      && gblDsdAvail + gblDsdInuse < NUM_DSD_CHAIN
    }

    constructor (supply: seq<nat>)
      requires Distinct(supply)
      ensures Valid() && cmds == [] && gblDsdList == [] && this.supply == supply
    {
      pool, gblDsdList, gblDsdAvail, gblDsdInuse, cmds := map[], [], 0, 0, [];
      this.supply := supply;
    }

    /** Makes room in the free list for a command of n descriptors; what was added stays on failure. */
    method EnsureLists(n: nat) returns (ok: bool)
      requires Valid()
      modifies this`gblDsdList, this`gblDsdAvail, this`supply
      ensures Valid()
      ensures ok ==> CalcDsdLists(n) <= gblDsdAvail
      ensures ok <==> CalcDsdLists(n) + gblDsdInuse < 4096 && CalcDsdLists(n) <= old(gblDsdAvail + |supply|)
      ensures gblDsdAvail == if CalcDsdLists(n) + gblDsdInuse >= 4096 || CalcDsdLists(n) <= old(gblDsdAvail)
                             then old(gblDsdAvail) else Min(CalcDsdLists(n), old(gblDsdAvail + |supply|))
      ensures gblDsdList + supply == old(gblDsdList + supply)
      ensures old(gblDsdList) <= gblDsdList
    {
      var more := CalcDsdLists(n);
      if more + gblDsdInuse >= NUM_DSD_CHAIN { return false; }
      if more <= gblDsdAvail { return true; }
      more := more - gblDsdAvail;
      for i := 0 to more
        invariant Valid() && gblDsdInuse == old(gblDsdInuse)
        invariant gblDsdAvail == old(gblDsdAvail) + i
        invariant gblDsdList + supply == old(gblDsdList + supply) && old(gblDsdList) <= gblDsdList
      {
        assert |gblDsdList + supply| == old(|gblDsdList + supply|);
        if supply == [] { return false; }
        GrowKeeps(pool, gblDsdList, supply, cmds);
        HeadMoves(gblDsdList, supply);
        gblDsdList := gblDsdList + [supply[0]];
        supply := supply[1..];
        gblDsdAvail := gblDsdAvail + 1;
      }
      return true;
    }

    // The command under construction owns lists; first descriptors of segs are in place.
    ghost predicate Building(head: Dsd, lists: seq<nat>, segs: seq<Dsd>, done: nat)
      reads this
    {
      && done <= |segs| && Laid(pool, head, lists, segs[..done], |segs|)
      && Owned(pool, gblDsdList, supply, cmds)
      && Apart(lists, gblDsdList) && Apart(lists, supply)
      && (forall k | 0 <= k < |cmds| :: Apart(cmds[k].lists, lists))
      && gblDsdAvail == |gblDsdList|
    }

    /** Moves the first free list to the command and links it in. */
    method TakeList(head: Dsd, lists: seq<nat>, segs: seq<Dsd>, done: nat, len: nat)
      returns (head': Dsd, lists': seq<nat>)
      requires Building(head, lists, segs, done) && done == 37 * |lists| < |segs| && gblDsdList != []
      requires len == (Min(PER_LIST, |segs| - done) + 1) * DSD_SIZE
      modifies this`pool, this`gblDsdList, this`gblDsdAvail, this`gblDsdInuse
      ensures Building(head', lists', segs, done)
      ensures lists' == lists + [old(gblDsdList)[0]] && gblDsdList == old(gblDsdList)[1..]
      ensures gblDsdAvail == old(gblDsdAvail) - 1 && gblDsdInuse == old(gblDsdInuse) + 1
    {
      var a := gblDsdList[0];
      var link := Dsd(a, len);
      OpenKeeps(pool, head, lists, segs[..done], |segs|, a);
      TakeKeeps(pool, gblDsdList, supply, cmds, lists, link);
      assert link == LinkTo(lists + [a], |segs|, |lists|);
      gblDsdList := gblDsdList[1..];
      gblDsdAvail := gblDsdAvail - 1;
      gblDsdInuse := gblDsdInuse + 1;
      head' := WriteHead(head, lists, link);
      pool := Write(pool, lists, link)[a := []];
      lists' := lists + [a];
    }

    /** One list: at most 37 of the tot segments still to come. */
    method BuildGroup(head: Dsd, lists: seq<nat>, segs: seq<Dsd>, done: nat, tot: nat)
      returns (head': Dsd, lists': seq<nat>, avail: nat)
      requires Building(head, lists, segs, done) && done == 37 * |lists| && tot == |segs| - done > 0 && gblDsdList != []
      modifies this`pool, this`gblDsdList, this`gblDsdAvail, this`gblDsdInuse
      ensures avail == Min(PER_LIST, tot) && Building(head', lists', segs, done + avail)
      ensures lists' == lists + [old(gblDsdList)[0]] && gblDsdList == old(gblDsdList)[1..]
      ensures gblDsdAvail == old(gblDsdAvail) - 1 && gblDsdInuse == old(gblDsdInuse) + 1
    {
      avail := if tot > PER_LIST then PER_LIST else tot;
      head', lists' := TakeList(head, lists, segs, done, (avail + 1) * DSD_SIZE);
      FillList(head', lists', segs, done, avail);
    }

    // The loop of the builder: lists until every segment is placed.
    method BuildLists(segs: seq<Dsd>) returns (head: Dsd, lists: seq<nat>)
      requires Building(NULL, [], segs, 0) && |segs| <= 37 * gblDsdAvail
      modifies this`pool, this`gblDsdList, this`gblDsdAvail, this`gblDsdInuse
      ensures Building(head, lists, segs, |segs|) && lists + gblDsdList == old(gblDsdList)
      ensures gblDsdAvail == old(gblDsdAvail) - |lists| && gblDsdInuse == old(gblDsdInuse) + |lists|
    {
      head, lists := NULL, [];
      var tot, done := |segs|, 0;
      while tot > 0
        invariant tot == |segs| - done && Building(head, lists, segs, done)
        invariant tot > 0 ==> done == 37 * |lists|
        invariant lists + gblDsdList == old(gblDsdList)
        invariant gblDsdAvail == old(gblDsdAvail) - |lists| && gblDsdInuse == old(gblDsdInuse) + |lists|
      {
        var avail;
        HeadMoves(lists, gblDsdList);
        head, lists, avail := BuildGroup(head, lists, segs, done, tot);
        tot := tot - avail;
        done := done + avail;
      }
    }

    /** qla24xx_build_scsi_type_6_iocbs: one list per group of at most 37 segments, then the terminator. */
    method BuildType6(segs: seq<Dsd>) returns (c: Command)
      requires Valid() && 0 < |segs| && CalcDsdLists(|segs|) <= gblDsdAvail
      modifies this`pool, this`gblDsdList, this`gblDsdAvail, this`gblDsdInuse
      ensures Owned(pool, gblDsdList, supply, cmds + [c]) && c.ds == segs && |c.lists| == CalcDsdLists(|segs|)
      ensures c.lists + gblDsdList == old(gblDsdList)
      ensures gblDsdAvail == |gblDsdList| == old(gblDsdAvail) - |c.lists|
      ensures gblDsdInuse == old(gblDsdInuse) + |c.lists|
    {
      ListsHold(|segs|, gblDsdAvail);
      var head, lists := BuildLists(segs);
      c := Finish(head, lists, segs, |segs|);
    }

    /** Without data no list is taken. */
    method BuildCommand(segs: seq<Dsd>, hasData: bool) returns (c: Command)
      requires Valid() && (hasData ==> segs != []) && CalcDsdLists(|segs|) <= gblDsdAvail
      modifies this`pool, this`gblDsdList, this`gblDsdAvail, this`gblDsdInuse
      ensures Owned(pool, gblDsdList, supply, cmds + [c]) && c.ds == if hasData then segs else []
      ensures c.lists + gblDsdList == old(gblDsdList)
      ensures gblDsdAvail == |gblDsdList| == old(gblDsdAvail) - |c.lists|
      ensures gblDsdInuse == old(gblDsdInuse) + |c.lists|
    {
      if hasData {
        c := BuildType6(segs);
      } else {
        c := Command(NULL, [], []);
        AddCommand(pool, gblDsdList, supply, cmds, c);
      }
    }

    /** The next avail segments into the current list. */
    method FillList(head: Dsd, lists: seq<nat>, segs: seq<Dsd>, done: nat, avail: nat)
      requires Building(head, lists, segs, done) && done + avail <= |segs| && done + avail <= 37 * |lists|
      modifies this`pool
      ensures Building(head, lists, segs, done + avail)
    {
      for at := done to done + avail
        invariant Building(head, lists, segs, at)
      {
        AppendSegment(head, lists, segs, at);
      }
    }

    method AppendSegment(head: Dsd, lists: seq<nat>, segs: seq<Dsd>, done: nat)
      requires Building(head, lists, segs, done) && done < |segs| && done < 37 * |lists|
      modifies this`pool
      ensures Building(head, lists, segs, done + 1)
    {
      NextSegmentLaid(pool, head, lists, segs, done);
      WriteApart(pool, gblDsdList, supply, cmds, lists, segs[done]);
      pool := Write(pool, lists, segs[done]);
    }

    /** The null terminator; the command now owns its lists. */
    method Finish(head: Dsd, lists: seq<nat>, segs: seq<Dsd>, ghost done: nat) returns (c: Command)
      requires Building(head, lists, segs, done) && done == |segs|
      modifies this`pool
      ensures Owned(pool, gblDsdList, supply, cmds + [c]) && c.ds == segs && c.lists == lists
      ensures |lists| == CalcDsdLists(|segs|)
    {
      assert segs[..done] == segs;
      CloseKeeps(pool, head, lists, segs);
      WriteApart(pool, gblDsdList, supply, cmds, lists, NULL);
      c := Command(WriteHead(head, lists, NULL), lists, segs);
      pool := Write(pool, lists, NULL);
      AddCommand(pool, gblDsdList, supply, cmds, c);
    }

    /**
     The Type 6 branch of qla82xx_start_scsi.  otherwise stands for the checks between growing the
     pool and building: ring room, context memory, CDB length.
     */
    method Submit(segs: seq<Dsd>, hasData: bool, otherwise: bool) returns (ok: bool)
      requires Valid() && (hasData ==> segs != [])
      modifies this
      ensures Valid()
      ensures ok <==> otherwise && CalcDsdLists(|segs|) + old(gblDsdInuse) < 4096
                      && CalcDsdLists(|segs|) <= old(gblDsdAvail + |supply|)
      ensures ok ==> |cmds| == |old(cmds)| + 1 && cmds[..|old(cmds)|] == old(cmds)
                     && cmds[|old(cmds)|].ds == if hasData then segs else []
      ensures ok ==> cmds[|old(cmds)|].lists + gblDsdList + supply == old(gblDsdList + supply)
      ensures !ok ==> cmds == old(cmds) && gblDsdList + supply == old(gblDsdList + supply)
      ensures gblDsdAvail + gblDsdInuse + |supply| == old(gblDsdAvail + gblDsdInuse + |supply|)
    {
      ok := EnsureLists(|segs|);
      if !ok || !otherwise { return false; }
      var c := BuildCommand(segs, hasData);
      InUseAppend(cmds, c);
      cmds := cmds + [c];
    }

    /** Releasing a command splices its lists back to the front of the free list. */
    method Release(k: nat)
      requires Valid() && k < |cmds|
      modifies this
      ensures Valid() && cmds == Without(old(cmds), k)
      ensures gblDsdList == old(cmds)[k].lists + old(gblDsdList) && supply == old(supply)
      ensures gblDsdAvail + gblDsdInuse == old(gblDsdAvail + gblDsdInuse)
    {
      var lists, rest := cmds[k].lists, Without(cmds, k);
      InUseWithout(cmds, k);
      ReleaseKeeps(pool, gblDsdList, supply, cmds, k);
      gblDsdList := lists + gblDsdList;
      gblDsdInuse := gblDsdInuse - |lists|;
      gblDsdAvail := gblDsdAvail + |lists|;
      cmds := rest;
    }
  }

  lemma HeadMoves(s: seq<nat>, t: seq<nat>)
    requires t != []
    ensures (s + [t[0]]) + t[1..] == s + t
  {
  }

  lemma NextSegmentLaid(pool: Pool, head: Dsd, lists: seq<nat>, segs: seq<Dsd>, done: nat)
    requires done < |segs| && done < 37 * |lists| && Laid(pool, head, lists, segs[..done], |segs|)
    ensures Laid(Write(pool, lists, segs[done]), head, lists, segs[..done + 1], |segs|)
  {
    AppendKeeps(pool, head, lists, segs[..done], |segs|, segs[done]);
    assert segs[..done] + [segs[done]] == segs[..done + 1];
  }

  lemma ListsHold(n: nat, k: nat)
    ensures CalcDsdLists(n) <= k <==> n <= 37 * k
  {
  }

  /** In every valid state each command in flight reads back its own descriptors, whatever the others do. */
  lemma InFlightReadsBack(pool: Pool, free: seq<nat>, supply: seq<nat>, cmds: seq<Command>, k: nat)
    requires Owned(pool, free, supply, cmds) && k < |cmds|
    ensures Found(pool, cmds[k].head, cmds[k].lists, cmds[k].ds)
    ensures forall a | a in cmds[k].lists :: a !in free && forall j | 0 <= j < |cmds| && j != k :: a !in cmds[j].lists
  {
    assert Holds(pool, free, supply, cmds[k]);
    ChainReadsBack(pool, cmds[k].head, cmds[k].lists, cmds[k].ds);
    forall a, j | a in cmds[k].lists && 0 <= j < |cmds| && j != k ensures a !in cmds[j].lists {
      if j < k { assert Apart(cmds[j].lists, cmds[k].lists); } else { assert Apart(cmds[k].lists, cmds[j].lists); }
    }
  }

  // ---------- ownership steps ----------

  lemma DistinctJoin(s: seq<nat>, t: seq<nat>)
    requires Distinct(s) && Distinct(t) && Apart(s, t)
    ensures Distinct(s + t)
  {
    forall i, j | 0 <= i < j < |s + t| ensures (s + t)[i] != (s + t)[j] {
      if i < |s| <= j { assert s[i] in s && t[j - |s|] in t; }
    }
  }

  lemma GrowKeeps(pool: Pool, free: seq<nat>, supply: seq<nat>, cmds: seq<Command>)
    requires Owned(pool, free, supply, cmds) && supply != []
    ensures Owned(pool, free + [supply[0]], supply[1..], cmds)
  {
    DistinctJoin(free, [supply[0]]);
    forall k | 0 <= k < |cmds| ensures Holds(pool, free + [supply[0]], supply[1..], cmds[k]) {
      assert Holds(pool, free, supply, cmds[k]);
    }
  }

  lemma EndedElsewhere(pool: Pool, pool': Pool, c: Command)
    requires Ended(pool, c.head, c.lists, c.ds)
    requires forall a | a in c.lists :: a in pool ==> a in pool' && pool'[a] == pool[a]
    ensures Ended(pool', c.head, c.lists, c.ds)
  {
  }

  lemma TakeKeeps(pool: Pool, free: seq<nat>, supply: seq<nat>, cmds: seq<Command>, lists: seq<nat>, link: Dsd)
    requires Owned(pool, free, supply, cmds) && free != []
    requires Apart(lists, free) && Apart(lists, supply)
    requires forall k | 0 <= k < |cmds| :: Apart(cmds[k].lists, lists)
    ensures Owned(Write(pool, lists, link)[free[0] := []], free[1..], supply, cmds)
    ensures Apart(lists + [free[0]], free[1..]) && Apart(lists + [free[0]], supply)
    ensures forall k | 0 <= k < |cmds| :: Apart(cmds[k].lists, lists + [free[0]])
  {
    var pool' := Write(pool, lists, link)[free[0] := []];
    forall k | 0 <= k < |cmds|
      ensures Holds(pool', free[1..], supply, cmds[k]) && Apart(cmds[k].lists, lists + [free[0]])
    {
      assert Holds(pool, free, supply, cmds[k]);
      EndedElsewhere(pool, pool', cmds[k]);
    }
  }

  lemma WriteApart(pool: Pool, free: seq<nat>, supply: seq<nat>, cmds: seq<Command>, lists: seq<nat>, d: Dsd)
    requires Owned(pool, free, supply, cmds)
    requires forall k | 0 <= k < |cmds| :: Apart(cmds[k].lists, lists)
    ensures Owned(Write(pool, lists, d), free, supply, cmds)
  {
    forall k | 0 <= k < |cmds| ensures Holds(Write(pool, lists, d), free, supply, cmds[k]) {
      assert Holds(pool, free, supply, cmds[k]);
      EndedElsewhere(pool, Write(pool, lists, d), cmds[k]);
    }
  }

  lemma AddCommand(pool: Pool, free: seq<nat>, supply: seq<nat>, cmds: seq<Command>, c: Command)
    requires Owned(pool, free, supply, cmds) && Holds(pool, free, supply, c)
    requires forall k | 0 <= k < |cmds| :: Apart(cmds[k].lists, c.lists)
    ensures Owned(pool, free, supply, cmds + [c])
  {
  }

  lemma ReleaseKeeps(pool: Pool, free: seq<nat>, supply: seq<nat>, cmds: seq<Command>, k: nat)
    requires Owned(pool, free, supply, cmds) && k < |cmds|
    ensures Owned(pool, cmds[k].lists + free, supply, Without(cmds, k))
  {
    var c, rest := cmds[k], Without(cmds, k);
    assert Holds(pool, free, supply, c);
    DistinctJoin(c.lists, free);
    forall j | 0 <= j < |rest| ensures Holds(pool, c.lists + free, supply, rest[j]) {
      assert Holds(pool, free, supply, rest[j]);
    }
  }
}
