/**
 The request ring as a protocol between the driver, which publishes entries and keeps an
 estimate of the free room, and the firmware, which consumes them.  Positions count entries
 since the ring was initialised; a position's slot is its remainder modulo the ring length.
 */
module RingSpec {
  import opened Words
  import opened IocbFormat

  datatype Ring = Ring(
    slots: seq<Entry>,      // the ring memory
    produced: seq<Entry>,   // every entry published so far, in order
    consumed: nat,          // how many of them the firmware has taken
    seen: nat,              // the consumed position the driver last read
    cnt: int                // req->cnt, the driver's estimate of the free room
  )

  // The driver's estimate, from its own index and an out pointer read from the adapter.
  function RoomFrom(length: int, index: int, out: int): int {
    if index < out then out - index else length - (index - out)
  }

  // What one submission does to the estimate before it decides.  headroom is the margin that the
  // submission path insists on: 2 for the SCSI, DIF and bidirectional paths, 0 for alloc_iocbs.
  datatype Request = Request(reserve: nat, headroom: nat, readPos: nat)

  ghost predicate Readable(r: Ring, q: Request) {
    && r.slots != []
    && r.seen <= q.readPos <= r.consumed   // the register never shows the future, nor goes back
  }

  function Refresh(r: Ring, q: Request): Ring
    requires r.slots != []
  {
    if r.cnt < q.reserve + q.headroom then
      var n := |r.slots|;
      r.(cnt := RoomFrom(n, Slot(|r.produced|, n), Slot(q.readPos, n)), seen := q.readPos)
    else r
  }

  predicate HasRoom(r: Ring, q: Request)
    requires r.slots != []
  {
    Refresh(r, q).cnt >= q.reserve + q.headroom
  }

  // How far slot i lies ahead of slot s, going round.
  function Ahead(s: nat, i: nat, n: nat): nat
    requires s < n && i < n
  {
    if i >= s then i - s else i - s + n
  }

  // Slots after writing batch from position p on.
  function WriteAt(slots: seq<Entry>, p: nat, batch: seq<Entry>): (r: seq<Entry>)
    requires slots != []
    ensures |r| == |slots|
  {
    var n := |slots|;
    seq(n, i requires 0 <= i < n =>
      var d := Ahead(Slot(p, n), i, n); if d < |batch| then batch[d] else slots[i])
  }

  datatype Event =
    | Submit(q: Request, batch: seq<Entry>)     // reserve, build, publish
    | Rollback(q: Request, scribble: Entry)     // reserve, build into the current slot, give up
    | Decline(q: Request)                        // no room
    | Consume                                    // the firmware takes one entry

  ghost predicate Enabled(r: Ring, e: Event) {
    match e
    case Submit(q, batch) => Readable(r, q) && HasRoom(r, q) && 1 <= |batch| <= q.reserve
    case Rollback(q, _) => Readable(r, q) && HasRoom(r, q) && q.reserve >= 1
    case Decline(q) => Readable(r, q) && !HasRoom(r, q)
    case Consume => r.slots != [] && r.consumed < |r.produced|
  }

  function Step(r: Ring, e: Event): Ring
    requires r.slots != []
  {
    match e
    case Submit(q, batch) =>
      var s := Refresh(r, q);
      s.(cnt := s.cnt - q.reserve,
         slots := WriteAt(s.slots, |s.produced|, batch),
         produced := s.produced + batch)
    case Rollback(q, scribble) =>
      var s := Refresh(r, q);
      s.(slots := WriteAt(s.slots, |s.produced|, [scribble]))
    case Decline(q) => Refresh(r, q)
    case Consume => r.(consumed := r.consumed + 1)
  }

  // What a submission amounts to: granted, or declined for want of room.
  function Outcome(granted: bool, q: Request, batch: seq<Entry>): Event {
    if granted then Submit(q, batch) else Decline(q)
  }

  // The room the driver knows of: what was free when it last read the out pointer.
  function KnownFree(r: Ring): int { |r.slots| - (|r.produced| - r.seen) }

  // The submission that fills the ring as far as the driver knows it.
  predicate TakesLast(r: Ring, e: Event)
    requires r.slots != []
  {
    e.Submit? && |e.batch| == KnownFree(Refresh(r, e.q))
  }

  // The estimate lies within the room the driver knows of, which never vanishes, and every entry the
  // firmware has not taken is in its slot.
  ghost predicate Inv(r: Ring) {
    && r.slots != []
    && r.seen <= r.consumed <= |r.produced|
    && 0 <= r.cnt <= KnownFree(r) && 0 < KnownFree(r)
    && forall p | r.consumed <= p < |r.produced| :: r.slots[Slot(p, |r.slots|)] == r.produced[p]
  }

  function Init(slots: seq<Entry>): Ring { Ring(slots, [], 0, 0, |slots|) }

  // ---------- one step ----------

  /** A refreshed estimate is the distance to the position read, as long as that distance is not zero. */
  lemma RoomFromIsDistance(n: nat, produced: nat, pos: nat)
    requires n > 0 && pos <= produced <= pos + n
    ensures produced < pos + n ==> RoomFrom(n, Slot(produced, n), Slot(pos, n)) == n - (produced - pos)
    ensures produced == pos + n ==> RoomFrom(n, Slot(produced, n), Slot(pos, n)) == n   // a full ring looks empty
  {
    WrapIsSlot(pos, produced - pos, n);
  }

  lemma RefreshKeepsInv(r: Ring, q: Request)
    requires Inv(r) && Readable(r, q)
    ensures Inv(Refresh(r, q))
    ensures Refresh(r, q).slots == r.slots && Refresh(r, q).produced == r.produced
    ensures Refresh(r, q).consumed == r.consumed
  {
    RoomFromIsDistance(|r.slots|, |r.produced|, q.readPos);
  }

  lemma WriteAtInside(slots: seq<Entry>, p: nat, batch: seq<Entry>, k: nat)
    requires slots != [] && k < |batch| <= |slots|
    ensures WriteAt(slots, p, batch)[Slot(p + k, |slots|)] == batch[k]
  {
    WrapIsSlot(p, k, |slots|);
  }

  /** Writing into the free part leaves every unconsumed entry in place. */
  lemma WriteKeepsUnconsumed(slots: seq<Entry>, p: nat, batch: seq<Entry>, u: nat)
    requires slots != [] && u < p && p + |batch| <= u + |slots|
    ensures WriteAt(slots, p, batch)[Slot(u, |slots|)] == slots[Slot(u, |slots|)]
  {
    WrapIsSlot(u, p - u, |slots|);
  }

  /** A step keeps the invariant exactly when it does not fill the ring as far as the driver knows it. */
  lemma StepKeepsInv(r: Ring, e: Event)
    requires Inv(r) && Enabled(r, e)
    ensures Inv(Step(r, e)) <==> !TakesLast(r, e)
  {
    match e
    case Consume =>
    case Decline(q) => RefreshKeepsInv(r, q);
    case Rollback(q, scribble) =>
      RefreshKeepsInv(r, q);
      var s := Refresh(r, q);
      forall p | s.consumed <= p < |s.produced|
        ensures Step(r, e).slots[Slot(p, |s.slots|)] == s.produced[p]
      {
        WriteKeepsUnconsumed(s.slots, |s.produced|, [scribble], p);
      }
    case Submit(q, batch) =>
      RefreshKeepsInv(r, q);
      SubmitKeepsContents(Refresh(r, q), q, batch);
  }

  lemma HeadroomKeepsInv(r: Ring, e: Event)
    requires Inv(r) && Enabled(r, e) && (e.Submit? ==> e.q.headroom >= 1)
    ensures !TakesLast(r, e) && Inv(Step(r, e))
  {
    if e.Submit? { RefreshKeepsInv(r, e.q); }
    StepKeepsInv(r, e);
  }

  lemma SubmitKeepsContents(s: Ring, q: Request, batch: seq<Entry>)
    requires Inv(s) && s.cnt >= q.reserve >= |batch|
    ensures var slots := WriteAt(s.slots, |s.produced|, batch);
            forall p | s.consumed <= p < |s.produced| + |batch| ::
              slots[Slot(p, |s.slots|)] == (s.produced + batch)[p]
  {
    var slots := WriteAt(s.slots, |s.produced|, batch);
    forall p | s.consumed <= p < |s.produced| + |batch|
      ensures slots[Slot(p, |s.slots|)] == (s.produced + batch)[p]
    {
      if p < |s.produced| {
        WriteKeepsUnconsumed(s.slots, |s.produced|, batch, p);
      } else {
        WriteAtInside(s.slots, |s.produced|, batch, p - |s.produced|);
      }
    }
  }

  // The room a submission is entitled to: what it asks for, headroom included, is there by the driver's estimate
  // or at the out pointer it may read.
  ghost predicate Deserved(r: Ring, q: Request) {
    || r.cnt >= q.reserve + q.headroom
    || |r.slots| - (|r.produced| - q.readPos) >= q.reserve + q.headroom
  }

  /** Granted exactly when deserved; the out pointer is read only if the estimate is too small. */
  lemma GrantedIffDeserved(r: Ring, q: Request)
    requires Inv(r) && Readable(r, q)
    ensures HasRoom(r, q) <==> Deserved(r, q)
    ensures if r.cnt >= q.reserve + q.headroom then Refresh(r, q) == r else Refresh(r, q).seen == q.readPos
  {
    RoomFromIsDistance(|r.slots|, |r.produced|, q.readPos);
  }

  /** In particular it is never declined when the firmware has, by the pointer read, left room enough. */
  lemma NeverDeclinedWithRoom(r: Ring, q: Request)
    requires Inv(r) && Readable(r, q) && |r.slots| - (|r.produced| - q.readPos) >= q.reserve + q.headroom
    ensures HasRoom(r, q) && !Enabled(r, Decline(q))
  {
    GrantedIffDeserved(r, q);
  }

  /**
   The estimate is no guess: as long as every granted submission publishes all it reserved, the driver's free
   count is exactly what was free when it last read the out pointer, less what it has published since.
   */
  lemma EstimateStaysExact(r: Ring, e: Event)
    requires Inv(r) && Enabled(r, e) && r.cnt == KnownFree(r)
    requires e.Submit? ==> |e.batch| == e.q.reserve
    ensures Step(r, e).cnt == KnownFree(Step(r, e))
  {
    if !e.Consume? { RoomFromIsDistance(|r.slots|, |r.produced|, e.q.readPos); }
  }

  /** Under the invariant the driver's estimate never exceeds the true free room, and the ring is never full. */
  lemma EstimateIsSafe(r: Ring)
    requires Inv(r)
    ensures 0 <= r.cnt <= |r.slots| - (|r.produced| - r.consumed)
    ensures |r.produced| - r.consumed < |r.slots|
  {
  }

  // ---------- whole runs ----------

  ghost predicate Run(r: Ring, es: seq<Event>)
    decreases |es|
  {
    es == [] || (Enabled(r, es[0]) && Run(Step(r, es[0]), es[1..]))
  }

  ghost predicate LeavesOneFree(r: Ring, es: seq<Event>)
    requires Run(r, es)
    decreases |es|
  {
    es == [] || (!TakesLast(r, es[0]) && LeavesOneFree(Step(r, es[0]), es[1..]))
  }

  ghost function After(r: Ring, es: seq<Event>): Ring
    requires Run(r, es)
    decreases |es|
  {
    if es == [] then r else After(Step(r, es[0]), es[1..])
  }

  // What the firmware reads out of the ring memory along a run.
  ghost function Fetched(r: Ring, es: seq<Event>): seq<Entry>
    requires Run(r, es)
    decreases |es|
  {
    if es == [] then []
    else (if es[0].Consume? then [r.slots[Slot(r.consumed, |r.slots|)]] else []) + Fetched(Step(r, es[0]), es[1..])
  }

  lemma StepHistory(r: Ring, e: Event)
    requires Inv(r) && Enabled(r, e) && !TakesLast(r, e)
    ensures Inv(Step(r, e)) && r.produced <= Step(r, e).produced
    ensures Step(r, e).consumed == r.consumed + (if e.Consume? then 1 else 0)
    ensures e.Consume? ==> r.slots[Slot(r.consumed, |r.slots|)] == r.produced[r.consumed]
  {
    StepKeepsInv(r, e);
    match e
    case Submit(q, _) => RefreshKeepsInv(r, q);
    case Rollback(q, _) => RefreshKeepsInv(r, q);
    case Decline(q) => RefreshKeepsInv(r, q);
    case Consume =>
  }

  /**
   Along every interleaving of submissions, abandoned submissions and firmware reads, with any
   stale but never decreasing views of the out pointer, the firmware reads exactly the entries
   that were published, in order, and the estimate stays safe -- provided no submission takes
   the last free entry.
   */
  lemma {:induction false} FirmwareReadsWhatWasPublished(r: Ring, es: seq<Event>)
    requires Inv(r) && Run(r, es) && LeavesOneFree(r, es)
    ensures var z := After(r, es);
            && Inv(z)
            && r.produced <= z.produced
            && r.consumed <= z.consumed <= |z.produced|
            && Fetched(r, es) == z.produced[r.consumed..z.consumed]
    decreases |es|
  {
    if es != [] {
      StepHistory(r, es[0]);
      var s := Step(r, es[0]);
      FirmwareReadsWhatWasPublished(s, es[1..]);
      var z := After(s, es[1..]);
      if es[0].Consume? {
        assert z.produced[r.consumed] == s.produced[r.consumed] == r.produced[r.consumed];
        assert [z.produced[r.consumed]] + z.produced[s.consumed..z.consumed] == z.produced[r.consumed..z.consumed];
      }
    }
  }

  /** A path that insists on headroom never takes the last entry, so runs of such paths are safe. */
  lemma {:induction false} HeadroomSuffices(r: Ring, es: seq<Event>)
    requires Inv(r) && Run(r, es)
    requires forall e | e in es && e.Submit? :: e.q.headroom >= 1
    ensures LeavesOneFree(r, es)
    decreases |es|
  {
    if es != [] {
      assert es[0] in es;
      HeadroomKeepsInv(r, es[0]);
      HeadroomSuffices(Step(r, es[0]), es[1..]);
    }
  }

  lemma {:induction false} EstimateIsExact(r: Ring, es: seq<Event>)
    requires Inv(r) && Run(r, es) && LeavesOneFree(r, es) && r.cnt == KnownFree(r)
    requires forall e | e in es && e.Submit? :: |e.batch| == e.q.reserve
    ensures After(r, es).cnt == KnownFree(After(r, es))
    decreases |es|
  {
    if es != [] {
      assert es[0] in es;
      EstimateStaysExact(r, es[0]);
      StepKeepsInv(r, es[0]);
      EstimateIsExact(Step(r, es[0]), es[1..]);
    }
  }

  /** States that follow one another by enabled steps make up a run. */
  lemma {:induction false} EffectsAreARun(rs: seq<Ring>, es: seq<Event>)
    requires |rs| == |es| + 1
    requires forall i | 0 <= i < |es| :: Enabled(rs[i], es[i]) && rs[i + 1] == Step(rs[i], es[i])
    ensures Run(rs[0], es) && After(rs[0], es) == rs[|es|]
    decreases |es|
  {
    if es != [] {
      EffectsAreARun(rs[1..], es[1..]);
      assert rs[1..][0] == Step(rs[0], es[0]);
    }
  }

  // ---------- when the last entry is taken ----------

  /**
   Why the last entry must stay free.  Once a submission has filled the ring as far as the driver knows it,
   a next submission that reads the same out pointer finds the ring empty: whatever it asks for up to a
   whole ring is granted, and its k-th entry goes to the slot of the k-th entry since that pointer, read by
   the firmware or not.
   */
  lemma FullRingIsOverwritten(r: Ring, e: Event, q: Request, batch: seq<Entry>)
    requires Inv(r) && Enabled(r, e) && TakesLast(r, e) && q.readPos == Step(r, e).seen
    requires 1 <= |batch| <= q.reserve && q.reserve + q.headroom <= |r.slots|
    ensures var s := Step(r, e);
            && KnownFree(s) == s.cnt == 0 && Refresh(s, q).cnt == |s.slots| && Enabled(s, Submit(q, batch))
            && forall p | s.seen <= p < |s.produced| && p - s.seen < |batch| ::
                 Step(s, Submit(q, batch)).slots[Slot(p, |s.slots|)] == batch[p - s.seen]
  {
    var s := Step(r, e);
    FilledRing(r, e);
    FullLooksEmpty(s, q);
    OverwritesFromSeen(s, q, batch);
  }

  lemma OverwritesFromSeen(s: Ring, q: Request, batch: seq<Entry>)
    requires s.slots != [] && |s.produced| == s.seen + |s.slots| && |batch| <= |s.slots|
    requires Refresh(s, q).slots == s.slots && Refresh(s, q).produced == s.produced
    ensures forall p | s.seen <= p < |s.produced| && p - s.seen < |batch| ::
              Step(s, Submit(q, batch)).slots[Slot(p, |s.slots|)] == batch[p - s.seen]
  {
    forall p | s.seen <= p < |s.produced| && p - s.seen < |batch|
      ensures Step(s, Submit(q, batch)).slots[Slot(p, |s.slots|)] == batch[p - s.seen]
    {
      WriteGoesRound(s.slots, s.seen, batch, p);
    }
  }

  lemma FilledRing(r: Ring, e: Event)
    requires Inv(r) && Enabled(r, e) && TakesLast(r, e)
    ensures var s := Step(r, e);
            && s.slots != [] && |s.produced| == s.seen + |s.slots| && s.cnt == 0
            && s.seen <= s.consumed < |s.produced|
  {
    RefreshKeepsInv(r, e.q);
  }

  lemma FullLooksEmpty(s: Ring, q: Request)
    requires s.slots != [] && |s.produced| == s.seen + |s.slots| && s.cnt == 0 && s.seen <= s.consumed
    requires q.readPos == s.seen && 1 <= q.reserve && q.reserve + q.headroom <= |s.slots|
    ensures Readable(s, q) && Refresh(s, q) == s.(cnt := |s.slots|) && HasRoom(s, q)
  {
    RoomFromIsDistance(|s.slots|, |s.produced|, s.seen);
  }

  lemma WriteGoesRound(slots: seq<Entry>, seen: nat, batch: seq<Entry>, p: nat)
    requires slots != [] && |batch| <= |slots| && seen <= p < seen + |batch|
    ensures WriteAt(slots, seen + |slots|, batch)[Slot(p, |slots|)] == batch[p - seen]
  {
    WriteAtInside(slots, seen + |slots|, batch, p - seen);
    WrapIsSlot(p, |slots|, |slots|);
    assert seen + |slots| + (p - seen) == p + |slots|;
  }

  // Some next submission replaces an entry the firmware has not taken.
  ghost predicate NextCanLose(s: Ring) {
    exists q, batch, p {:trigger Submit(q, batch), Slot(p, |s.slots|)} ::
      && Enabled(s, Submit(q, batch)) && s.consumed <= p < |s.produced|
      && Step(s, Submit(q, batch)).slots[Slot(p, |s.slots|)] != s.produced[p]
  }

  lemma NextKeepsUnread(s: Ring, q: Request, batch: seq<Entry>, p: nat)
    requires Inv(s) && Enabled(s, Submit(q, batch)) && s.consumed <= p < |s.produced|
    ensures Step(s, Submit(q, batch)).slots[Slot(p, |s.slots|)] == s.produced[p]
  {
    RefreshKeepsInv(s, q);
    WriteKeepsUnconsumed(s.slots, |s.produced|, batch, p);
  }

  lemma OtherEntry(x: Entry) returns (y: Entry)
    ensures y != x
  {
    y := x[0 := if x[0] == 0 then 1 else 0];
  }

  /**
   The exact danger, without reference to the invariant's own bounds: from a sound ring, a step makes it
   possible that the very next submission replaces an unread entry exactly when it takes the last one.
   */
  lemma TakesLastIffNextCanLose(r: Ring, e: Event)
    requires Inv(r) && Enabled(r, e)
    ensures TakesLast(r, e) <==> NextCanLose(Step(r, e))
  {
    var s := Step(r, e);
    StepKeepsInv(r, e);
    if TakesLast(r, e) {
      FilledRing(r, e);
      var p, n := s.consumed, |s.slots|;
      var x := OtherEntry(s.produced[p]);
      var q, batch := Request(n, 0, s.seen), seq(n, _ => x);
      FullRingIsOverwritten(r, e, q, batch);
      assert Step(s, Submit(q, batch)).slots[Slot(p, n)] == batch[p - s.seen];
      assert NextCanLose(s);
    } else {
      forall q, batch, p | Enabled(s, Submit(q, batch)) && s.consumed <= p < |s.produced|
        ensures Step(s, Submit(q, batch)).slots[Slot(p, |s.slots|)] == s.produced[p]
      {
        NextKeepsUnread(s, q, batch, p);
      }
    }
  }

  lemma RunOne(r: Ring, e: Event, rest: seq<Event>)
    requires Enabled(r, e) && Run(Step(r, e), rest)
    ensures Run(r, [e] + rest) && After(r, [e] + rest) == After(Step(r, e), rest)
    ensures Fetched(r, [e] + rest) ==
            (if e.Consume? then [r.slots[Slot(r.consumed, |r.slots|)]] else []) + Fetched(Step(r, e), rest)
    ensures LeavesOneFree(r, [e] + rest) <==> !TakesLast(r, e) && LeavesOneFree(Step(r, e), rest)
  {
    assert ([e] + rest)[1..] == rest;
  }

  /** A concrete such run on a ring of two entries: the firmware never sees the first command. */
  lemma LostCommand(a: Entry, b: Entry, c: Entry, slots: seq<Entry>)
    requires |slots| == 2 && a != c
    ensures var q := Request(1, 0, 0);
            var es := [Submit(q, [a]), Submit(q, [b]), Submit(q, [c]), Consume];
            && Run(Init(slots), es)
            && Inv(Init(slots))
            && !LeavesOneFree(Init(slots), es)
            && After(Init(slots), es).produced == [a, b, c]
            && Fetched(Init(slots), es) == [c]
  {
    var q := Request(1, 0, 0);
    var es := [Submit(q, [a]), Submit(q, [b]), Submit(q, [c]), Consume];
    var r0 := Init(slots);
    var r1 := Step(r0, es[0]);
    assert r1 == Ring([a, slots[1]], [a], 0, 0, 1);
    var r2 := Step(r1, es[1]);
    assert r2 == Ring([a, b], [a, b], 0, 0, 0);
    var r3 := Step(r2, es[2]);
    assert Slot(2, 2) == 0;
    assert r3 == Ring([c, b], [a, b, c], 0, 0, 1);
    assert [es[3]] + [] == [es[3]] && [es[2]] + [es[3]] == [es[2], es[3]];
    assert [es[1]] + [es[2], es[3]] == [es[1], es[2], es[3]] && [es[0]] + [es[1], es[2], es[3]] == es;
    RunOne(r3, es[3], []);
    RunOne(r2, es[2], [es[3]]);
    RunOne(r1, es[1], [es[2], es[3]]);
    RunOne(r0, es[0], [es[1], es[2], es[3]]);
    assert TakesLast(r1, es[1]);
  }
}
