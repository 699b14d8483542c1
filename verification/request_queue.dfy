/**
 The driver's side of one request queue: handle search, room check, the builders that spread a
 command over wrapped ring entries, and the submission paths that share them.  Every method is
 tied to the protocol of RingSpec and to the reader of IocbFormat.
 */
module RequestQueue {
  import opened Words
  import opened IocbFormat
  import opened RingSpec

  class Srb {
    var handle: u32
    constructor () { handle := 0; }
  }

  // The slot reached from slot c by k steps round the slots 1..n-1.
  function Hop(c: nat, k: nat, n: nat): nat
    requires 1 <= c < n && k < n
  {
    if c + k < n then c + k else c + k - (n - 1)
  }

  /** A hop of one is the next slot, slot 1 following the last; more hops are one after the other. */
  lemma HopsOneByOne(c: nat, k: nat, n: nat)
    requires 1 <= c < n && k + 1 < n
    ensures Hop(c, 0, n) == c && Hop(c, 1, n) == (if c == n - 1 then 1 else c + 1)
    ensures 1 <= Hop(c, k, n) < n && Hop(c, k + 1, n) == Hop(Hop(c, k, n), 1, n)
  {
  }

  // m consecutive slots from start on, going round.
  function Window(slots: seq<Entry>, start: nat, m: nat): seq<Entry>
    requires start < |slots| && m <= |slots|
  {
    seq(m, k requires 0 <= k < m => slots[Wrap(start, k, |slots|)])
  }

  class ReqQue {
    const id: u16
    const ring: array<Entry>
    const outstanding: array<Srb?>
    var ringIndex: nat
    var cnt: int
    var current: nat

    // Protocol history, for the specification only.
    ghost var produced: seq<Entry>
    ghost var consumed: nat
    ghost var seen: nat

    ghost predicate Valid()
      reads this, ring, outstanding
    {
      && 0 < ring.Length < TWO16 && 0 < outstanding.Length < TWO16
      && ringIndex == Slot(|produced|, ring.Length)
      && 0 <= cnt <= ring.Length
      && 1 <= current && (current < outstanding.Length || outstanding.Length == 1)
      && outstanding[0] == null
    }

    // Each outstanding command knows its slot, so no command sits in two slots.
    ghost predicate HandlesAgree()
      reads this, outstanding, set h | 0 <= h < outstanding.Length && outstanding[h] != null :: outstanding[h]
    {
      forall h | 0 <= h < outstanding.Length && outstanding[h] != null :: outstanding[h].handle == h
    }

    /** So the table is injective: no command sits in two slots. */
    lemma TableIsInjective(g: nat, h: nat)
      requires HandlesAgree() && g < outstanding.Length && h < outstanding.Length
      ensures outstanding[g] != null && outstanding[g] == outstanding[h] ==> g == h && outstanding[g].handle == g
    {
    }

    ghost function View(): Ring
      reads this, ring
    {
      Ring(ring[..], produced, consumed, seen, cnt)
    }

    ghost predicate SlotFree()
      reads this, outstanding
    {
      exists h :: 1 <= h < outstanding.Length && outstanding[h] == null
    }

    constructor (id: u16, length: u16, commands: u16)
      requires length > 0 && commands > 0
      ensures Valid() && HandlesAgree() && fresh(ring) && fresh(outstanding)
      ensures View() == Init(ring[..]) && Inv(View())
      ensures ring.Length == length && outstanding.Length == commands
      ensures forall h | 0 <= h < commands :: outstanding[h] == null
    {
      this.id := id;
      ring := new Entry[length](_ => ZERO_ENTRY);
      outstanding := new Srb?[commands](_ => null);
      ringIndex, cnt, current := 0, length, 1;
      produced, consumed, seen := [], 0, 0;
    }

    /** The firmware takes one published entry. */
    ghost method FirmwareConsume()
      requires Valid() && Enabled(View(), Consume)
      modifies this`consumed
      ensures Valid() && View() == Step(old(View()), Consume)
    {
      consumed := consumed + 1;
    }

    /** Next-fit search: succeeds iff some slot 1..n-1 is empty, and takes the first empty one after current. */
    method FindHandle() returns (found: bool, handle: nat)
      requires Valid()
      ensures found <==> SlotFree()
      ensures found ==>
                && 1 <= handle < outstanding.Length && outstanding[handle] == null
                && exists k :: 1 <= k < outstanding.Length && handle == Hop(current, k, outstanding.Length)
                     && forall j | 1 <= j < k :: outstanding[Hop(current, j, outstanding.Length)] != null
    {
      var n := outstanding.Length;
      handle := current;
      var index := 1;
      while index < n
        invariant 1 <= index && (index <= n || n == 1)
        invariant n > 1 ==> handle == Hop(current, index - 1, n)
        invariant n > 1 ==> forall j | 1 <= j < index :: outstanding[Hop(current, j, n)] != null
      {
        handle := handle + 1;
        if handle == n { handle := 1; }
        assert handle == Hop(current, index, n);
        if outstanding[handle] == null { break; }
        index := index + 1;
      }
      found := index < n;
      if !found {
        forall h | 1 <= h < n ensures outstanding[h] != null {
          var j := if h > current then h - current else h - current + (n - 1);
          assert Hop(current, j, n) == h;
        }
      }
    }

    /** The room check: re-reads the out pointer only when the estimate is too small. */
    method CheckRoom(reserve: nat, headroom: nat, out: nat, ghost pos: nat) returns (room: bool)
      requires Valid() && Readable(View(), Request(reserve, headroom, pos)) && out == Slot(pos, ring.Length)
      modifies this`cnt, this`seen
      ensures Valid()
      ensures View() == Refresh(old(View()), Request(reserve, headroom, pos))
      ensures room <==> HasRoom(old(View()), Request(reserve, headroom, pos))
    {
      if cnt < reserve + headroom {
        if ringIndex < out {
          cnt := out - ringIndex;
        } else {
          cnt := ring.Length - (ringIndex - out);
        }
        seen := pos;
      }
      room := cnt >= reserve + headroom;
    }

    /** Moves on to the next ring entry and marks it as a continuation. */
    method PrepCont(f: Format)
      requires ringIndex < ring.Length
      modifies this`ringIndex, ring
      ensures ringIndex == Wrap(old(ringIndex), 1, ring.Length)
      ensures ring[..] == old(ring[..])[ringIndex := old(ring[..])[ringIndex][0 := f.ContCode()]]
    {
      ringIndex := ringIndex + 1;
      if ringIndex == ring.Length {
        ringIndex := 0;
      }
      ring[ringIndex] := ring[ringIndex][0 := f.ContCode()];
    }

    /**
     The build loop: avail slots are left in the current entry and cur is the word after the last
     one written; a full entry is followed by a fresh continuation entry.
     */
    method LoadSegments(f: Format, segs: seq<Dsd>, avail0: nat, cur0: nat, ghost b: Build)
      returns (avail: nat, cur: nat, added: nat)
      requires b.f == f && Loaded(b)
      requires avail0 == Avail(f, |b.done|) && cur0 == f.Offset(CurrentEntry(f, |b.done|), Used(f, |b.done|))
      requires CurrentEntry(f, |b.done| + |segs|) < ring.Length
      modifies this`ringIndex, ring
      ensures Loaded(b.With(segs))
      ensures avail == Avail(f, |b.done| + |segs|)
      ensures cur == f.Offset(CurrentEntry(f, |b.done| + |segs|), Used(f, |b.done| + |segs|))
      ensures added == CurrentEntry(f, |b.done| + |segs|) - CurrentEntry(f, |b.done|)
    {
      avail, cur, added := avail0, cur0, 0;
      b.WithNone();
      for i := 0 to |segs|
        invariant Loaded(b.With(segs[..i]))
        invariant avail == Avail(f, |b.done| + i)
        invariant cur == f.Offset(CurrentEntry(f, |b.done| + i), Used(f, |b.done| + i))
        invariant added == CurrentEntry(f, |b.done| + i) - CurrentEntry(f, |b.done|)
      {
        avail, cur, added := PlaceNth(f, segs, i, avail, cur, added, b);
      }
      assert segs[..|segs|] == segs;
    }

    // Segment i behind the segments before it.
    method PlaceNth(f: Format, segs: seq<Dsd>, i: nat, avail0: nat, cur0: nat, added0: nat, ghost b: Build)
      returns (avail: nat, cur: nat, added: nat)
      requires b.f == f && i < |segs| && Loaded(b.With(segs[..i])) && avail0 == Avail(f, |b.done| + i)
      requires cur0 == f.Offset(CurrentEntry(f, |b.done| + i), Used(f, |b.done| + i))
      requires CurrentEntry(f, |b.done| + |segs|) < ring.Length
      modifies this`ringIndex, ring
      ensures Loaded(b.With(segs[..i + 1])) && avail == Avail(f, |b.done| + i + 1)
      ensures cur == f.Offset(CurrentEntry(f, |b.done| + i + 1), Used(f, |b.done| + i + 1))
      ensures added == added0 + CurrentEntry(f, |b.done| + i + 1) - CurrentEntry(f, |b.done| + i)
    {
      ghost var c := b.With(segs[..i]);
      EntriesGrow(f, |b.done| + i + 1, |b.done| + |segs|);
      b.WithMore(segs, i);
      avail, cur, added := PlaceSegment(f, segs[i], avail0, cur0, added0, c);
    }

    method PlaceSegment(f: Format, d: Dsd, avail0: nat, cur0: nat, added0: nat, ghost b: Build)
      returns (avail: nat, cur: nat, added: nat)
      requires b.f == f && Loaded(b)
      requires avail0 == Avail(f, |b.done|) && cur0 == f.Offset(CurrentEntry(f, |b.done|), Used(f, |b.done|))
      requires CurrentEntry(f, |b.done| + 1) < ring.Length
      modifies this`ringIndex, ring
      ensures Loaded(b.With([d]))
      ensures avail == Avail(f, |b.done| + 1)
      ensures cur == f.Offset(CurrentEntry(f, |b.done| + 1), Used(f, |b.done| + 1))
      ensures added == added0 + CurrentEntry(f, |b.done| + 1) - CurrentEntry(f, |b.done|)
    {
      RoomForNext(f, |b.done|);
      AfterOne(f, |b.done|);
      added := if avail0 == 0 then added0 + 1 else added0;
      avail, cur := OpenSlot(f, avail0, cur0, b);
      WriteDsd(f, d, cur, b);
      cur := cur + f.Stride();
      avail := avail - 1;
    }

    method WriteDsd(f: Format, d: Dsd, cur: nat, ghost b: Build)
      requires b.f == f && b.Laid(ring[..], CurrentEntry(f, |b.done| + 1) + 1)
      requires ringIndex == Wrap(b.start, CurrentEntry(f, |b.done| + 1), ring.Length) && cur == OffsetOf(f, |b.done|)
      modifies ring
      ensures Loaded(b.With([d]))
    {
      b.PutKeeps(ring[..], d);
      ghost var after := ring[..][ringIndex := PutDsd(f, ring[ringIndex], cur, d)];
      ring[ringIndex] := PutDsd(f, ring[ringIndex], cur, d);
      assert ring[..] == after;
    }

    method OpenSlot(f: Format, avail0: nat, cur0: nat, ghost b: Build) returns (avail: nat, cur: nat)
      requires b.f == f && Loaded(b)
      requires avail0 == Avail(f, |b.done|) && cur0 == f.Offset(CurrentEntry(f, |b.done|), Used(f, |b.done|))
      requires CurrentEntry(f, |b.done| + 1) < ring.Length
      modifies this`ringIndex, ring
      ensures b.Laid(ring[..], CurrentEntry(f, |b.done| + 1) + 1)
      ensures ringIndex == Wrap(b.start, CurrentEntry(f, |b.done| + 1), ring.Length)
      ensures cur == OffsetOf(f, |b.done|)
      ensures avail == if avail0 == 0 then f.Cont() else avail0
    {
      avail, cur := avail0, cur0;
      ghost var p, m := |b.done|, CurrentEntry(f, |b.done|) + 1;
      RoomForNext(f, p);
      if avail == 0 {
        b.ContinuationKeeps(ring[..], m);
        WrapTwice(b.start, m - 1, ring.Length);
        PrepCont(f);
        cur := f.Base(1);
        avail := f.Cont();
      }
    }

    // ---------- building one command ----------

    // What a finished build leaves behind: batch in the slots from start on, nothing else changed.
    ghost predicate Built(start: nat, was: seq<Entry>, batch: seq<Entry>)
      reads this, ring
    {
      && start < ring.Length == |was| && 1 <= |batch| <= ring.Length
      && ring[..] == WriteAt(was, start, batch)
      && ringIndex == Wrap(start, |batch| - 1, ring.Length)
    }

    /** Clears the current entry and fills in the command header. */
    method WriteHeader(f: Format, handle: u32, n: u16, m: u16) returns (ghost b: Build)
      requires ringIndex < ring.Length
      modifies ring
      ensures b == Build(f, ringIndex, Header(f, handle, n, m)[..10], [], old(ring[..]))
      ensures Loaded(b) && ring[ringIndex] == Header(f, handle, n, m)
    {
      b := Build(f, ringIndex, Header(f, handle, n, m)[..10], [], ring[..]);
      ring[ringIndex] := Header(f, handle, n, m);
    }

    /** Fills in the entry count of the command at start. */
    method WriteEntryCount(f: Format, start: nat, count: nat, ghost b: Build) returns (ghost batch: seq<Entry>)
      requires b.f == f && Loaded(b) && b.start == start
      modifies ring
      ensures Built(start, b.was, batch) && |batch| == CurrentEntry(b.f, |b.done|) + 1
      ensures Placed(b.f, batch, b.done)
      ensures batch[0][..10] == Counted(f, b.header, count)
      ensures forall k {:trigger batch[k]} | 1 <= k < |batch| :: batch[k][0] == f.ContCode()
    {
      ghost var m, cmd := CurrentEntry(b.f, |b.done|) + 1, WithEntryCount(b.f, ring[start], count);
      ghost var after := ring[..][start := cmd];
      b.CountKeeps(ring[..], m, cmd);
      assert cmd[..10] == Counted(f, b.header, count);
      ring[start] := ring[start][0 := f.Code() + TWO8 * (count % TWO8)];
      assert ring[..] == after;
      batch := b.Headed(cmd).Finish(ring[..], m);
    }

    /** A SCSI command: header, descriptors and entry count; without data only the header is built. */
    method BuildScsi(f: Format, handle: u32, segs: seq<Dsd>, hasData: bool, count: nat)
      returns (ghost batch: seq<Entry>)
      requires !f.Bidir? && |segs| < TWO16 && ringIndex < ring.Length
      requires CurrentEntry(f, |segs|) < ring.Length
      modifies this`ringIndex, ring
      ensures Built(old(ringIndex), old(ring[..]), batch)
      ensures |batch| == if hasData then CurrentEntry(f, |segs|) + 1 else 1
      ensures batch[0][..10] == Counted(f, Header(f, handle, |segs|, 0)[..10], count)
      ensures hasData || segs == [] ==> IsCommand(f, handle, count, CarriedAll(f, segs), [], batch)
    {
      var start := ringIndex;
      ghost var b := WriteHeader(f, handle, |segs|, 0);
      b := LoadScsi(f, segs, hasData, b);
      batch := WriteEntryCount(f, start, count, b);
      assert CarriedAll(f, segs) + [] == CarriedAll(f, segs);
    }

    /** The three SCSI builders return before the loop when there is no data to transfer. */
    method LoadScsi(f: Format, segs: seq<Dsd>, hasData: bool, ghost b: Build) returns (ghost built: Build)
      requires b.f == f && b.done == [] && Loaded(b)
      requires CurrentEntry(f, |segs|) < ring.Length
      modifies this`ringIndex, ring
      ensures built == (if hasData then b.(done := CarriedAll(f, segs)) else b) && Loaded(built)
    {
      built := b;
      if !hasData { return; }
      var avail, cur, added := LoadSegments(f, segs, f.First(), f.Base(0), b);
      built := b.With(segs);
      assert [] + CarriedAll(f, segs) == CarriedAll(f, segs);
    }

    /** A bidirectional command: write descriptors, then read descriptors in the same stream of entries. */
    method BuildBidir(handle: u32, wr: seq<Dsd>, rd: seq<Dsd>) returns (ghost batch: seq<Entry>)
      requires |wr| < TWO16 && |rd| < TWO16 && ringIndex < ring.Length
      requires CalcIocbs(Bidir, |wr| + |rd|) <= ring.Length
      modifies this`ringIndex, ring
      ensures Built(old(ringIndex), old(ring[..]), batch)
      ensures |batch| == CalcIocbs(Bidir, |wr| + |rd|)
      ensures IsCommand(Bidir, handle, |batch|, CarriedAll(Bidir, wr), CarriedAll(Bidir, rd), batch)
    {
      var start := ringIndex;
      PlacesUseCalcIocbs(Bidir, |wr| + |rd|);
      ghost var b := WriteHeader(Bidir, handle, |wr|, |rd|);
      var count := LoadBidir(wr, rd, b);
      batch := WriteEntryCount(Bidir, start, count, b.(done := CarriedAll(Bidir, wr) + CarriedAll(Bidir, rd)));
    }

    method LoadBidir(wr: seq<Dsd>, rd: seq<Dsd>, ghost b: Build) returns (count: nat)
      requires b.f == Bidir && b.done == [] && Loaded(b)
      requires CurrentEntry(Bidir, |wr| + |rd|) < ring.Length
      modifies this`ringIndex, ring
      ensures Loaded(b.(done := CarriedAll(Bidir, wr) + CarriedAll(Bidir, rd)))
      ensures count == CurrentEntry(Bidir, |wr| + |rd|) + 1
    {
      EntriesGrow(Bidir, |wr|, |wr| + |rd|);
      ghost var c := b.(done := CarriedAll(Bidir, wr));
      assert b.With(wr) == c by { assert b.done + c.done == c.done; }
      var avail, cur, first := LoadSegments(Bidir, wr, 1, Bidir.Base(0), b);
      var second;
      avail, cur, second := LoadSegments(Bidir, rd, avail, cur, c);
      count := 1 + first + second;
    }

    ghost predicate Loaded(b: Build)
      reads this, ring
    {
      var m := CurrentEntry(b.f, |b.done|) + 1;
      b.Laid(ring[..], m) && ringIndex == Wrap(b.start, m - 1, ring.Length)
    }

    // ---------- submission ----------

    ghost predicate CanRead(out: nat, pos: nat)
      reads this, ring
    {
      ring.Length > 0 && seen <= pos <= consumed && out == Slot(pos, ring.Length)
    }

    /** Moves past the last entry built; the entries from start on now belong to the firmware. */
    method StartIocbs(ghost was: seq<Entry>, ghost batch: seq<Entry>)
      requires ring.Length > 0 && Built(Slot(|produced|, ring.Length), was, batch)
      modifies this`ringIndex, this`produced
      ensures ringIndex == Slot(|produced|, ring.Length) && produced == old(produced) + batch
      ensures ring[..] == WriteAt(was, |old(produced)|, batch)
    {
      WrapIsSlot(|produced|, |batch|, ring.Length);
      ringIndex := ringIndex + 1;
      if ringIndex == ring.Length {
        ringIndex := 0;
      }
      produced := produced + batch;
    }

    method Install(handle: nat, sp: Srb)
      requires handle < outstanding.Length < TWO16
      modifies this`current, outstanding, sp`handle
      ensures current == handle == sp.handle
      ensures outstanding[..] == old(outstanding[..])[handle := sp]
    {
      current := handle;
      outstanding[handle] := sp;
      sp.handle := handle;
    }

    // The call was the step e of the protocol; a step with headroom keeps the ring sound.
    twostate predicate Stepped(e: Event)
      reads this, ring
    {
      && Enabled(old(View()), e) && View() == Step(old(View()), e)
      && (old(Inv(View())) && (e.Submit? ==> e.q.headroom >= 1) ==> Inv(View()))
      && (old(Inv(View())) && !e.Consume? ==> (e.Decline? <==> !Deserved(old(View()), e.q)))
    }

    // The slot table gained sp in a slot that was free, and nothing else.
    twostate predicate Installed(sp: Srb)
      reads this, outstanding, sp
    {
      && 1 <= sp.handle < outstanding.Length && current == sp.handle
      && old(outstanding[..])[sp.handle] == null
      && outstanding[..] == old(outstanding[..])[sp.handle := sp]
    }

    twostate predicate TableUnchanged(sp: Srb)
      reads this, outstanding, sp
    {
      outstanding[..] == old(outstanding[..]) && current == old(current) && sp.handle == old(sp.handle)
    }

    /**
     qla2x00_start_scsi and qla24xx_start_scsi.  segs is None when DMA mapping failed.  A failed
     submission leaves the table as it was; a successful one is one step of the ring protocol that
     publishes exactly the reserved entries and installs the command in a free slot.
     */
    method StartScsi(f: Format, sp: Srb, segs: Option<seq<Dsd>>, hasData: bool, out: nat, ghost pos: nat)
      returns (ok: bool, ghost batch: seq<Entry>)
      requires Valid() && HandlesAgree() && sp !in outstanding[..]
      requires !f.Bidir? && (segs.Some? ==> |segs.value| < TWO16) && CanRead(out, pos)
      modifies this, ring, outstanding, sp
      ensures Valid() && HandlesAgree()
      ensures segs.None? || !old(SlotFree()) ==> !ok && View() == old(View())
      ensures segs.Some? && old(SlotFree()) ==> Stepped(Outcome(ok, Request(CalcIocbs(f, |segs.value|), 2, pos), batch))
      ensures !ok ==> TableUnchanged(sp)
      ensures ok ==> Installed(sp)
      ensures ok ==> |batch| == if hasData then CalcIocbs(f, |segs.value|) else 1
      ensures ok ==> HeaderOf(batch[0]) == Some((f, HandleWord(f, sp), CalcIocbs(f, |segs.value|) % TWO8))
      ensures ok && (hasData || segs.value == []) ==>
                IsCommand(f, HandleWord(f, sp), CalcIocbs(f, |segs.value|), CarriedAll(f, segs.value), [], batch)
    {
      ok, batch := false, [];
      var found, handle := FindHandle();
      if !found || segs.None? { return; }
      var reqCnt := CalcIocbs(f, |segs.value|);
      StepsStaySound(View(), Request(reqCnt, 2, pos));
      ok := CheckRoom(reqCnt, 2, out, pos);
      if !ok { return; }
      batch := SubmitScsi(f, sp, segs.value, hasData, handle);
    }

    // The handle word of a command in the table; the older formats carry the bare slot.
    function HandleWord(f: Format, sp: Srb): u32
      reads sp
    {
      if f.Type7? && sp.handle < TWO16 then MakeHandle(id, sp.handle) else sp.handle
    }

    /** The word's low half is the slot; its high half is the queue, or zero on the older formats. */
    lemma HandleWordNames(f: Format, sp: Srb)
      requires sp.handle < TWO16
      ensures HandleWord(f, sp) % 0x1_0000 == sp.handle
      ensures HandleWord(f, sp) / 0x1_0000 == if f.Type7? then id else 0
    {
    }

    /** The granted half: install, build, publish. */
    method SubmitScsi(f: Format, sp: Srb, segs: seq<Dsd>, hasData: bool, handle: nat) returns (ghost batch: seq<Entry>)
      requires Valid() && HandlesAgree() && sp !in outstanding[..]
      requires !f.Bidir? && |segs| < TWO16 && CalcIocbs(f, |segs|) <= cnt
      requires 1 <= handle < outstanding.Length && outstanding[handle] == null
      modifies this, ring, outstanding, sp
      ensures Valid() && HandlesAgree() && Installed(sp)
      ensures var r := old(View());
              View() == r.(cnt := r.cnt - CalcIocbs(f, |segs|), slots := WriteAt(r.slots, |r.produced|, batch),
                           produced := r.produced + batch)
      ensures |batch| == if hasData then CalcIocbs(f, |segs|) else 1
      ensures HeaderOf(batch[0]) == Some((f, HandleWord(f, sp), CalcIocbs(f, |segs|) % TWO8))
      ensures hasData || segs == [] ==>
                IsCommand(f, HandleWord(f, sp), CalcIocbs(f, |segs|), CarriedAll(f, segs), [], batch)
    {
      var reqCnt := CalcIocbs(f, |segs|);
      Install(handle, sp);
      cnt := cnt - reqCnt;
      PlacesUseCalcIocbs(f, |segs|);
      ghost var was := ring[..];
      batch := BuildScsi(f, if f.Type7? then MakeHandle(id, handle) else handle, segs, hasData, reqCnt);
      HeaderOfCounted(f, HandleWord(f, sp), |segs|, 0, reqCnt, batch[0]);
      StartIocbs(was, batch);
    }

    /** qla2x00_start_bidir: the same protocol step, built before the command is installed. */
    method StartBidir(sp: Srb, wr: seq<Dsd>, rd: seq<Dsd>, out: nat, ghost pos: nat)
      returns (ok: bool, ghost batch: seq<Entry>)
      requires Valid() && HandlesAgree() && sp !in outstanding[..]
      requires |wr| + |rd| < TWO16 && CanRead(out, pos)
      modifies this, ring, outstanding, sp
      ensures Valid() && HandlesAgree()
      ensures !old(SlotFree()) ==> !ok && View() == old(View())
      ensures old(SlotFree()) ==> Stepped(Outcome(ok, Request(CalcIocbs(Bidir, |wr| + |rd|), 2, pos), batch))
      ensures !ok ==> TableUnchanged(sp)
      ensures ok ==> Installed(sp)
      ensures ok ==> |batch| == CalcIocbs(Bidir, |wr| + |rd|)
      ensures ok ==> IsCommand(Bidir, MakeHandle(id, sp.handle), |batch|,
                               CarriedAll(Bidir, wr), CarriedAll(Bidir, rd), batch)
    {
      ok, batch := false, [];
      var found, handle := FindHandle();
      if !found { return; }
      var reqCnt := CalcIocbs(Bidir, |wr| + |rd|);
      StepsStaySound(View(), Request(reqCnt, 2, pos));
      ok := CheckRoom(reqCnt, 2, out, pos);
      if !ok { return; }
      ghost var was := ring[..];
      batch := BuildBidir(MakeHandle(id, handle), wr, rd);
      Install(handle, sp);
      cnt := cnt - reqCnt;
      StartIocbs(was, batch);
    }

    /** The first half of the DIF submission: slot, mapping, room; then install the command and build its entry. */
    method DifReserve(sp: Srb, mapped: bool, cmd: Entry, out: nat, ghost pos: nat) returns (room: bool)
      requires Valid() && HandlesAgree() && sp !in outstanding[..] && CanRead(out, pos)
      modifies this`cnt, this`seen, this`current, ring, outstanding, sp
      ensures Valid() && HandlesAgree()
      ensures room <==> mapped && old(SlotFree()) && HasRoom(old(View()), Request(1, 2, pos))
      ensures !room ==> TableUnchanged(sp)
      ensures !room && mapped && old(SlotFree()) ==> View() == Step(old(View()), Decline(Request(1, 2, pos)))
      ensures !mapped || !old(SlotFree()) ==> View() == old(View())
      ensures room ==> Installed(sp) && Built(ringIndex, old(ring[..]), [Named(cmd, sp)]) && 0 <= cnt < ring.Length
      ensures room ==> View() == Reserved(old(View()), Request(1, 2, pos), Named(cmd, sp))
    {
      room := false;
      var found, handle := FindHandle();
      if !found || !mapped { return; }
      room := CheckRoom(1, 2, out, pos);
      if !room { return; }
      Install(handle, sp);
      cnt := cnt - 1;
      ghost var was := ring[..];
      ring[ringIndex] := cmd[1 := MakeHandle(id, handle)];
      WriteOne(was, ringIndex, Named(cmd, sp));
      assert ring[..] == was[ringIndex := Named(cmd, sp)];
    }

    // The entry with the command's handle in its handle word.
    function Named(cmd: Entry, sp: Srb): Entry
      reads sp
    {
      if sp.handle < TWO16 then cmd[1 := MakeHandle(id, sp.handle)] else cmd
    }

    lemma NamedNames(cmd: Entry, sp: Srb)
      requires sp.handle < TWO16
      ensures Named(cmd, sp)[1] % 0x1_0000 == sp.handle && Named(cmd, sp)[1] / 0x1_0000 == id
      ensures Named(cmd, sp)[0] == cmd[0] && Named(cmd, sp)[2..] == cmd[2..]
    {
    }

    /** The second half: publish, or give slot and entry back. */
    method DifConclude(sp: Srb, cmd: Entry, built: bool, ghost was: seq<Entry>)
      requires Valid() && HandlesAgree() && Built(ringIndex, was, [cmd]) && 0 <= cnt < ring.Length
      requires 1 <= sp.handle < outstanding.Length
      modifies this`ringIndex, this`produced, this`cnt, outstanding
      ensures Valid() && HandlesAgree()
      ensures View() == Concluded(old(View()), cmd, built)
      ensures outstanding[..] == if built then old(outstanding[..]) else old(outstanding[..])[sp.handle := null]
    {
      if built {
        StartIocbs(was, [cmd]);
      } else {
        outstanding[sp.handle] := null;
        cnt := cnt + 1;
      }
    }

    // What a whole DIF submission comes to.
    twostate predicate DifDone(sp: Srb, mapped: bool, cmd: Entry, built: bool, pos: nat, ok: bool)
      reads this, ring, outstanding, sp
    {
      && ring.Length > 0
      && (!mapped || !old(SlotFree()) ==> !ok && View() == old(View()))
      && (mapped && old(SlotFree()) ==>
            var q := Request(1, 2, pos);
            && ok == (HasRoom(old(View()), q) && built)
            && Stepped(if HasRoom(old(View()), q) && !built then Rollback(q, Named(cmd, sp))
                       else Outcome(ok, q, [Named(cmd, sp)])))
      && (!ok ==> outstanding[..] == old(outstanding[..]))
      && (ok ==> Installed(sp))
    }

    /**
     qla24xx_dif_start_scsi: one command entry.  built tells whether the CRC context could be
     built; if not, the slot and the reserved entry are given back.
     */
    method DifStartScsi(sp: Srb, mapped: bool, cmd: Entry, built: bool, out: nat, ghost pos: nat) returns (ok: bool)
      requires Valid() && HandlesAgree() && sp !in outstanding[..] && CanRead(out, pos)
      modifies this, ring, outstanding, sp
      ensures Valid() && HandlesAgree()
      ensures DifDone(sp, mapped, cmd, built, pos, ok)
    {
      StepsStaySound(View(), Request(1, 2, pos));
      ok := DifReserve(sp, mapped, cmd, out, pos);
      if ok {
        DifConclude(sp, Named(cmd, sp), built, old(ring[..]));
        ok := built;
        if !built { assert outstanding[..] == old(outstanding[..]); }
      }
    }

    /** Fills the entries of a command one after the other, moving round the ring in between. */
    method WritePackets(pkts: seq<Entry>)
      requires ringIndex < ring.Length && 1 <= |pkts| <= ring.Length
      modifies this`ringIndex, ring
      ensures Built(old(ringIndex), old(ring[..]), pkts)
    {
      ghost var start, was := ringIndex, ring[..];
      ring[ringIndex] := pkts[0];
      assert ring[..] == WriteAt(was, start, pkts[..1]);
      for k := 1 to |pkts|
        invariant ring[..] == WriteAt(was, start, pkts[..k]) && ringIndex == Wrap(start, k - 1, ring.Length)
      {
        WriteOneMore(was, start, pkts, k);
        WrapTwice(start, k - 1, ring.Length);
        ringIndex := ringIndex + 1;
        if ringIndex == ring.Length {
          ringIndex := 0;
        }
        ghost var after := ring[..][ringIndex := pkts[k]];
        ring[ringIndex] := pkts[k];
        assert ring[..] == after;
      }
      assert pkts[..|pkts|] == pkts;
    }

    /** Room check without headroom, build, publish. */
    method PublishPackets(reqCnt: nat, pkts: seq<Entry>, out: nat, ghost pos: nat) returns (ok: bool)
      requires Valid() && CanRead(out, pos) && 1 <= |pkts| <= reqCnt
      modifies this`cnt, this`seen, this`ringIndex, this`produced, ring
      ensures Valid()
      ensures var e := Outcome(ok, Request(reqCnt, 0, pos), pkts);
              && Enabled(old(View()), e) && View() == Step(old(View()), e)
              && (old(Inv(View())) ==> (ok <==> Deserved(old(View()), e.q)))
    {
      if Inv(View()) { GrantedIffDeserved(View(), Request(reqCnt, 0, pos)); }
      ok := CheckRoom(reqCnt, 0, out, pos);
      if ok {
        cnt := cnt - reqCnt;
        ghost var was := ring[..];
        WritePackets(pkts);
        StartIocbs(was, pkts);
      }
    }

    /**
     qla2x00_alloc_iocbs, the builder of the command, and qla2x00_start_iocbs: pkts are the entries as the
     builder fills them around the handle, sp is null for a marker, whose handle is zero.  No headroom is
     demanded, and a command that finds a slot but no room stays in the table.
     */
    method AllocAndStart(sp: Srb?, iocbs: nat, pkts: seq<Entry>, out: nat, ghost pos: nat) returns (ok: bool)
      requires Valid() && HandlesAgree() && (sp != null ==> sp !in outstanding[..]) && CanRead(out, pos)
      requires 1 <= |pkts| <= (if sp == null then 1 else iocbs) && iocbs < TWO16
      modifies this, ring, outstanding, if sp == null then {} else {sp}
      ensures Valid() && HandlesAgree()
      ensures sp != null && !old(SlotFree()) ==> !ok && View() == old(View()) && TableUnchanged(sp)
      ensures sp == null || old(SlotFree()) ==>
                var named := WithHandle(pkts, if sp == null then 0 else sp.handle);
                var e := Outcome(ok, Request(if sp == null then 1 else iocbs, 0, pos), named);
                && Enabled(old(View()), e) && View() == Step(old(View()), e)
                && (old(Inv(View())) ==> (ok <==> Deserved(old(View()), e.q))) && named[0][1] == WordOf(sp)
      ensures sp != null && old(SlotFree()) ==> Installed(sp)      // also when there is no room
      ensures sp == null ==> outstanding[..] == old(outstanding[..]) && current == old(current)
    {
      ok := false;
      var handle := 0;
      if sp != null {
        var found;
        found, handle := FindHandle();
        if !found { return; }
        Install(handle, sp);
      }
      ok := PublishPackets(if sp == null then 1 else iocbs, WithHandle(pkts, handle), out, pos);
    }

    // The handle of a command, or the marker's.
    function WordOf(sp: Srb?): u32
      reads if sp == null then {} else {sp}
    {
      if sp == null then 0 else sp.handle
    }

    /** Completion by handle: returns the command in that slot, if its own handle agrees, and frees the slot. */
    method TakeByHandle(word: u32) returns (sp: Srb?)
      requires Valid() && HandlesAgree()
      modifies outstanding
      ensures Valid() && HandlesAgree()
      ensures sp == if LSW(word) < outstanding.Length then old(outstanding[LSW(word)]) else null
      ensures outstanding[..] == if sp == null then old(outstanding[..]) else old(outstanding[..])[LSW(word) := null]
      ensures sp !in outstanding[..] || sp == null
    {
      sp := null;
      var index := LSW(word);
      if index >= outstanding.Length { return; }
      sp := outstanding[index];
      if sp == null { return; }
      if sp.handle != index { sp := null; return; }
      outstanding[index] := null;
    }

    /** The completion of the command whose entry stands at ring index at. */
    method CompleteAt(at: nat, ghost sp: Srb, ghost was: seq<Srb?>) returns (done: Srb?)
      requires Valid() && HandlesAgree() && at < ring.Length && LSW(ring[at][1]) == sp.handle
      requires sp.handle < outstanding.Length == |was| && was[sp.handle] == null
      requires outstanding[..] == was[sp.handle := sp]
      modifies outstanding
      ensures Valid() && HandlesAgree() && done == sp && outstanding[..] == was
    {
      done := TakeByHandle(ring[at][1]);
      assert outstanding[..] == was[sp.handle := sp][sp.handle := null];
    }

    /**
     Round trip: the handle word the firmware finds in the ring, given back in a completion, takes the very
     command that was submitted, and the table is as it was.
     */
    method StartAndComplete(f: Format, sp: Srb, segs: Option<seq<Dsd>>, hasData: bool, out: nat, ghost pos: nat)
      returns (ok: bool, done: Srb?)
      requires Valid() && HandlesAgree() && sp !in outstanding[..]
      requires !f.Bidir? && (segs.Some? ==> |segs.value| < TWO16) && CanRead(out, pos)
      modifies this, ring, outstanding, sp
      ensures Valid() && HandlesAgree()
      ensures done == (if ok then sp else null) && outstanding[..] == old(outstanding[..])
    {
      var at := ringIndex;
      ghost var batch;
      done := null;
      ok, batch := StartScsi(f, sp, segs, hasData, out, pos);
      if ok {
        FirstOfBatch(old(ring[..]), |old(produced)|, batch);
        HandleWordNames(f, sp);
        done := CompleteAt(at, sp, old(outstanding[..]));
      }
    }
  }

  // A command under construction: format, first slot, first ten header words, the descriptors
  // placed so far, and the ring as it was before.
  datatype Build = Build(f: Format, start: nat, header: seq<u32>, done: seq<Dsd>, was: seq<Entry>) {

    // The m entries from start on hold the header and the descriptors; the rest of the ring is untouched.
    ghost predicate Laid(slots: seq<Entry>, m: nat) {
      && |slots| == |was| && start < |was| && 1 <= m <= |was|
      && Placed(f, Window(slots, start, m), done)
      && slots[start][..10] == header
      && (forall k | 1 <= k < m :: slots[Wrap(start, k, |was|)][0] == f.ContCode())
      && (forall i | 0 <= i < |was| && Ahead(start, i, |was|) >= m :: slots[i] == was[i])
    }

    function Headed(cmd: Entry): Build { this.(header := cmd[..10]) }

    /** Filling in the entry count afterwards touches no descriptor. */
    lemma CountKeeps(slots: seq<Entry>, m: nat, cmd: Entry)
      requires Laid(slots, m) && cmd[1..] == slots[start][1..]
      ensures Headed(cmd).Laid(slots[start := cmd], m)
    {
      var after := slots[start := cmd];
      var w, w' := Window(slots, start, m), Window(after, start, m);
      forall q | 0 <= q < |done| ensures PlacedAt(f, w', PlaceOf(f, q), done[q]) {
        assert PlacedAt(f, w, PlaceOf(f, q), done[q]);
        OffsetFits(f, PlaceOf(f, q).entry, PlaceOf(f, q).slot);
        assert forall i | 1 <= i < 16 :: cmd[i] == cmd[1..][i - 1] == slots[start][i];
      }
    }

    // The entries written, as one batch.
    ghost function Finish(slots: seq<Entry>, m: nat): (batch: seq<Entry>)
      requires Laid(slots, m)
      ensures |batch| == m && batch[0][..10] == header && Placed(f, batch, done)
      ensures forall k {:trigger batch[k]} | 1 <= k < |batch| :: batch[k][0] == f.ContCode()
      ensures slots == WriteAt(was, start, batch)
    {
      Window(slots, start, m)
    }

    lemma WithNone()
      ensures With([]) == this
    {
    }

    lemma WithMore(segs: seq<Dsd>, i: nat)
      requires i < |segs|
      ensures With(segs[..i]).With([segs[i]]) == With(segs[..i + 1])
      ensures |With(segs[..i]).done| == |done| + i && |With(segs[..i + 1]).done| == |done| + i + 1
    {
    }

    function With(segs: seq<Dsd>): Build { this.(done := done + CarriedAll(f, segs)) }

    /** A new continuation entry after the last one disturbs nothing. */
    lemma ContinuationKeeps(slots: seq<Entry>, m: nat)
      requires Laid(slots, m) && m < |slots|
      ensures var i := Wrap(start, m, |slots|); Laid(slots[i := slots[i][0 := f.ContCode()]], m + 1)
    {
      var i := Wrap(start, m, |slots|);
      var after := slots[i := slots[i][0 := f.ContCode()]];
      var w, w' := Window(slots, start, m), Window(after, start, m + 1);
      assert forall k | 0 <= k < m :: w'[k] == w[k];
      forall q | 0 <= q < |done| ensures PlacedAt(f, w', PlaceOf(f, q), done[q]) {
        assert PlacedAt(f, w, PlaceOf(f, q), done[q]);
      }
    }

    /** Writing the next descriptor in its slot extends the laid-out command by it. */
    lemma PutKeeps(slots: seq<Entry>, d: Dsd)
      requires Laid(slots, CurrentEntry(f, |done| + 1) + 1)
      ensures var at := PlaceOf(f, |done|);
              var off := f.Offset(at.entry, at.slot);
              && at.entry == CurrentEntry(f, |done| + 1) < |slots|
              && off + f.Stride() <= 16
              && var i := Wrap(start, at.entry, |slots|);
                 With([d]).Laid(slots[i := PutDsd(f, slots[i], off, d)], CurrentEntry(f, |done| + 1) + 1)
    {
      var m := CurrentEntry(f, |done| + 1) + 1;
      var at := PlaceOf(f, |done|);
      var w := Window(slots, start, m);
      PlaceNext(f, w, done, d);
      OffsetFits(f, at.entry, at.slot);
      var off, i := f.Offset(at.entry, at.slot), Wrap(start, at.entry, |slots|);
      PutThenGet(f, slots[i], off, d);
      var after := slots[i := PutDsd(f, slots[i], off, d)];
      assert Window(after, start, m) == PutAt(f, w, at, d);
      assert done + [f.Carried(d)] == With([d]).done;
    }
  }

  // A command's entries with the handle in the handle word of the first.
  function WithHandle(pkts: seq<Entry>, handle: u32): seq<Entry> {
    if pkts == [] then [] else pkts[0 := pkts[0][1 := handle]]
  }

  /** The handle goes into the second word of the first entry; nothing else changes. */
  lemma WithHandleKeeps(pkts: seq<Entry>, handle: u32)
    requires pkts != []
    ensures var named := WithHandle(pkts, handle);
            && |named| == |pkts| && named[1..] == pkts[1..]
            && named[0][0] == pkts[0][0] && named[0][1] == handle && named[0][2..] == pkts[0][2..]
  {
  }

  // The two halves of a DIF submission, on the protocol's ring.
  function Reserved(r: Ring, q: Request, cmd: Entry): Ring
    requires r.slots != []
  {
    var s := Refresh(r, q);
    s.(cnt := s.cnt - q.reserve, slots := WriteAt(s.slots, |s.produced|, [cmd]))
  }

  function Concluded(r: Ring, cmd: Entry, built: bool): Ring {
    if built then r.(produced := r.produced + [cmd]) else r.(cnt := r.cnt + 1)
  }

  // Whatever comes of a request with headroom, a sound ring stays sound.
  lemma StepsStaySound(r: Ring, q: Request)
    requires Readable(r, q) && q.headroom >= 1
    ensures Inv(r) ==> (HasRoom(r, q) <==> Deserved(r, q))
    ensures Inv(r) && Enabled(r, Decline(q)) ==> Inv(Step(r, Decline(q)))
    ensures Inv(r) ==> forall batch | Enabled(r, Submit(q, batch)) :: Inv(Step(r, Submit(q, batch)))
    ensures Inv(r) ==> forall x | Enabled(r, Rollback(q, x)) :: Inv(Step(r, Rollback(q, x)))
  {
    if Inv(r) {
      GrantedIffDeserved(r, q);
      forall e | Enabled(r, e) && !e.Consume? && e.q == q ensures Inv(Step(r, e)) { HeadroomKeepsInv(r, e); }
    }
  }

  lemma WrapTwice(start: nat, k: nat, n: nat)
    requires start < n && k < n
    ensures Wrap(Wrap(start, k, n), 1, n) == Wrap(start, k + 1, n)
  {
  }

  lemma FirstOfBatch(was: seq<Entry>, p: nat, batch: seq<Entry>)
    requires was != [] && 1 <= |batch| <= |was|
    ensures WriteAt(was, p, batch)[Slot(p, |was|)] == batch[0]
  {
    WriteAtInside(was, p, batch, 0);
  }

  lemma WriteOne(was: seq<Entry>, start: nat, e: Entry)
    requires start < |was|
    ensures WriteAt(was, start, [e]) == was[start := e]
  {
  }

  lemma WriteOneMore(was: seq<Entry>, start: nat, pkts: seq<Entry>, k: nat)
    requires start < |was| && 1 <= k < |pkts| <= |was|
    ensures WriteAt(was, start, pkts[..k])[Wrap(start, k, |was|) := pkts[k]] == WriteAt(was, start, pkts[..k + 1])
  {
  }

  lemma RoomForNext(f: Format, p: nat)
    ensures CurrentEntry(f, p + 1) == CurrentEntry(f, p) + (if Avail(f, p) == 0 then 1 else 0)
    ensures PlaceOf(f, p) == Place(CurrentEntry(f, p + 1), if Avail(f, p) == 0 then 0 else Used(f, p))
  {
  }

  lemma AfterOne(f: Format, p: nat)
    ensures OffsetOf(f, p) + f.Stride() == f.Offset(CurrentEntry(f, p + 1), Used(f, p + 1)) <= 16
    ensures Avail(f, p + 1) == (if Avail(f, p) == 0 then f.Cont() else Avail(f, p)) - 1
  {
    OffsetFits(f, PlaceOf(f, p).entry, PlaceOf(f, p).slot);
  }

  lemma EntriesGrow(f: Format, p: nat, total: nat)
    requires p <= total
    ensures CurrentEntry(f, p) <= CurrentEntry(f, total)
  {
    if 0 < p < total { PlacesApart(f, total - 1, p - 1); }
  }
}
