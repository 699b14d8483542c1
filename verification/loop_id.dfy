/**
 Loop identifiers: the bitmap allocator and the fabric login loop that drives it from the
 firmware's replies.
 */
module LoopId {
  import opened Words

  const NO_LOOP_ID := 0x1000
  const NPH_LAST_HANDLE := 0x7ef
  const SNS_FIRST_LOOP_ID := 0x81
  const MANAGEMENT_SERVER := 0xfe
  const BROADCAST := 0xff

  // The adapter generation, and the highest local loop identifier of the older one.
  datatype Family = Fwi2 | Legacy(maxLoopId: u16) {
    predicate Reserved(id: nat) {
      if Fwi2? then id > NPH_LAST_HANDLE
      else (id > maxLoopId && id < SNS_FIRST_LOOP_ID) || id == MANAGEMENT_SERVER || id == BROADCAST
    }
  }

  /** The identifiers a port is never given, by number. */
  lemma ReservedIs(f: Family, id: nat)
    ensures f.Reserved(id) <==>
            match f
            case Fwi2 => id >= 0x7f0
            case Legacy(max) => max < id <= 0x80 || id == 0xfe || id == 0xff
  {
  }

  // ---------- the allocator on values ----------

  function FirstZero(bits: seq<bool>, from: nat): (i: nat)
    requires from <= |bits|
    ensures from <= i <= |bits| && (forall k | from <= k < i :: bits[k]) && (i < |bits| ==> !bits[i])
    decreases |bits| - from
  {
    if from == |bits| || !bits[from] then from else FirstZero(bits, from + 1)
  }

  // The identifier the allocator grants, if any.
  function Grant(f: Family, bits: seq<bool>): Option<nat> {
    var i := FirstZero(bits, 0);
    if i >= |bits| || f.Reserved(i) then None else Some(i)
  }

  predicate Clears(f: Family, id: nat) { id != NO_LOOP_ID && !f.Reserved(id) }

  function Cleared(f: Family, bits: seq<bool>, id: nat): seq<bool> {
    if Clears(f, id) && id < |bits| then bits[id := false] else bits
  }

  // No reserved identifier is ever free below an unreserved one.
  ghost predicate Sealed(f: Family, bits: seq<bool>) {
    forall i | 0 <= i < |bits| && f.Reserved(i) :: bits[i] || forall j | i <= j < |bits| :: f.Reserved(j)
  }

  /**
   The allocator looks at the first zero bit only, yet it fails exactly when no unreserved
   identifier is free; what it grants was free and is not reserved.
   */
  lemma GrantFailsIffNoneFree(f: Family, bits: seq<bool>)
    requires Sealed(f, bits)
    ensures Grant(f, bits).None? <==> forall i | 0 <= i < |bits| && !f.Reserved(i) :: bits[i]
    ensures Grant(f, bits).Some? ==>
              var id := Grant(f, bits).value;
              id < |bits| && !bits[id] && !f.Reserved(id) && Sealed(f, bits[id := true])
  {
    var z := FirstZero(bits, 0);
    if z < |bits| && f.Reserved(z) {
      assert forall j | z <= j < |bits| :: f.Reserved(j);
    }
  }

  /** Clearing frees the one bit named, and only if it is neither reserved nor the sign for no identifier. */
  lemma ClearFreesExactly(f: Family, bits: seq<bool>, id: nat, i: nat)
    requires i < |bits|
    ensures |Cleared(f, bits, id)| == |bits|
    ensures Cleared(f, bits, id)[i] == (bits[i] && !(i == id && id != 0x1000 && !f.Reserved(id)))
  {
  }

  lemma ClearKeepsSealed(f: Family, bits: seq<bool>, id: nat)
    requires Sealed(f, bits)
    ensures Sealed(f, Cleared(f, bits, id))
  {
  }

  // Uses of the allocator, in any order.
  datatype Use = Find | Clear(id: nat)

  function Apply(f: Family, bits: seq<bool>, u: Use): seq<bool> {
    match u
    case Find =>
      (match Grant(f, bits) case None => bits case Some(id) => if id < |bits| then bits[id := true] else bits)
    case Clear(id) => Cleared(f, bits, id)
  }

  function Granted(f: Family, bits: seq<bool>, us: seq<Use>): seq<nat>
    decreases |us|
  {
    if us == [] then []
    else (if us[0].Find? && Grant(f, bits).Some? then [Grant(f, bits).value] else [])
         + Granted(f, Apply(f, bits, us[0]), us[1..])
  }

  /** Over any sequence of uses, an identifier in use is not granted again before it is cleared. */
  lemma {:induction false} TakenUntilCleared(f: Family, bits: seq<bool>, us: seq<Use>, id: nat)
    requires Sealed(f, bits) && id < |bits| && bits[id] && Clear(id) !in us
    ensures id !in Granted(f, bits, us)
    ensures forall g | g in Granted(f, bits, us) :: !f.Reserved(g) && g < |bits|
    decreases |us|
  {
    if us != [] {
      GrantFailsIffNoneFree(f, bits);
      match us[0] { case Find => case Clear(c) => ClearKeepsSealed(f, bits, c); }
      assert us[0] in us;
      TakenUntilCleared(f, Apply(f, bits, us[0]), us[1..], id);
    }
  }

  // The identifiers a port can still be given, in the order the allocator gives them.
  function FreeFrom(f: Family, bits: seq<bool>, from: nat): seq<nat>
    requires from <= |bits|
    decreases |bits| - from
  {
    if from == |bits| then []
    else (if !bits[from] && !f.Reserved(from) then [from] else []) + FreeFrom(f, bits, from + 1)
  }

  function FreeIds(f: Family, bits: seq<bool>): seq<nat> { FreeFrom(f, bits, 0) }

  lemma {:induction false} FreeFromIs(f: Family, bits: seq<bool>, from: nat)
    requires from <= |bits|
    ensures forall i :: i in FreeFrom(f, bits, from) <==> from <= i < |bits| && !bits[i] && !f.Reserved(i)
    decreases |bits| - from
  {
    if from < |bits| { FreeFromIs(f, bits, from + 1); }
  }

  lemma {:induction false} TakingFirst(f: Family, bits: seq<bool>, from: nat, id: nat)
    requires id < |bits| && !bits[id] && !f.Reserved(id)
    requires from <= |bits| && forall k | from <= k < id :: bits[k]
    ensures from <= id ==> FreeFrom(f, bits, from) == [id] + FreeFrom(f, bits[id := true], from)
    ensures from > id ==> FreeFrom(f, bits, from) == FreeFrom(f, bits[id := true], from)
    decreases |bits| - from
  {
    if from < |bits| { TakingFirst(f, bits, from + 1, id); }
  }

  lemma {:induction false} NothingFree(f: Family, bits: seq<bool>, from: nat)
    requires from <= |bits| && forall i | from <= i < |bits| && !f.Reserved(i) :: bits[i]
    ensures FreeFrom(f, bits, from) == []
    decreases |bits| - from
  {
    if from < |bits| { NothingFree(f, bits, from + 1); }
  }

  /** A grant takes the head of the free identifiers. */
  lemma GrantTakesFirst(f: Family, bits: seq<bool>)
    requires Sealed(f, bits)
    ensures match Grant(f, bits)
            case None => FreeIds(f, bits) == []
            case Some(id) =>
              Apply(f, bits, Find) == bits[id := true] && FreeIds(f, bits) == [id] + FreeIds(f, bits[id := true])
  {
    GrantFailsIffNoneFree(f, bits);
    match Grant(f, bits) {
      case None => NothingFree(f, bits, 0);
      case Some(id) => TakingFirst(f, bits, 0, id);
    }
  }

  // ---------- the login loop on values ----------

  // What one login attempt brings back: the mailbox command failed, or a status from the firmware.
  datatype Reply =
    | Failed(rval: int)
    | PortIdUsed(id: u16)
    | Complete
    | LoopIdUsed
    | CommandError
    | Other

  // Where the loop stands: bitmap, identifier in hand, retries so far, identifier set aside.
  datatype Login = Login(bits: seq<bool>, loopId: nat, retry: nat, tmp: nat)

  // How it ends.  rval is None when the replies run out first; taken are the identifiers granted on
  // the way, in order; dropped is the identifier in hand when an unhandled status came.
  datatype Outcome = Outcome(at: Login, rval: Option<int>, next: Option<nat>, attempts: nat,
                             taken: seq<nat>, dropped: Option<nat>)

  const FUNCTION_FAILED := 0x102

  function RunLogin(f: Family, s: Login, replies: seq<Reply>): Outcome
    decreases |replies|
  {
    if replies == [] then Outcome(s, None, None, 0, [], None)
    else
      match replies[0]
      case Failed(rval) => Outcome(s, Some(rval), None, 1, [], None)
      case PortIdUsed(id) =>
        var o := RunLogin(f, Login(s.bits, id, s.retry + 1, s.loopId), replies[1..]);
        o.(attempts := o.attempts + 1)
      case Complete =>
        Outcome(s, Some(0), Some(if s.retry > 0 then s.tmp else (s.loopId + 1) % TWO16), 1, [], None)
      case LoopIdUsed =>
        (match Grant(f, s.bits)
         case None => Outcome(s.(loopId := NO_LOOP_ID), Some(FUNCTION_FAILED), None, 1, [], None)
         case Some(id) =>
           var o := RunLogin(f, s.(loopId := id, bits := Apply(f, s.bits, Find)), replies[1..]);
           o.(attempts := o.attempts + 1, taken := [id] + o.taken))
      case CommandError => Outcome(s, Some(1), Some(s.loopId), 1, [], None)
      case Other =>
        Outcome(s.(bits := Cleared(f, s.bits, s.loopId),
                   loopId := if Clears(f, s.loopId) then NO_LOOP_ID else s.loopId),
                Some(3), Some(s.loopId), 1, [], Some(s.loopId))
  }

  function PortIdReplies(replies: seq<Reply>): nat {
    if replies == [] then 0 else (if replies[0].PortIdUsed? then 1 else 0) + PortIdReplies(replies[1..])
  }

  // ---------- what a login does, read off the replies ----------

  // The first reply that ends the loop, when there are n identifiers left to try.
  function FirstEnd(n: nat, replies: seq<Reply>): (e: nat)
    ensures e <= |replies| && forall k | 0 <= k < e :: replies[k].PortIdUsed? || replies[k].LoopIdUsed?
  {
    if replies == [] then 0
    else if replies[0].PortIdUsed? then 1 + FirstEnd(n, replies[1..])
    else if replies[0].LoopIdUsed? && n > 0 then 1 + FirstEnd(n - 1, replies[1..])
    else 0
  }

  function LoopUses(replies: seq<Reply>): nat {
    if replies == [] then 0 else (if replies[0].LoopIdUsed? then 1 else 0) + LoopUses(replies[1..])
  }

  // The identifier in hand after the given replies: the last PORT_ID_USED value or granted identifier, or
  // the port's own.
  function InHand(ids: seq<nat>, own: nat, before: seq<Reply>): nat {
    if before == [] then own
    else match before[|before| - 1]
      case PortIdUsed(id) => id
      case _ => if 0 < LoopUses(before) <= |ids| then ids[LoopUses(before) - 1] else own
  }

  lemma {:induction false} UsesWithinFree(n: nat, replies: seq<Reply>)
    ensures LoopUses(replies[..FirstEnd(n, replies)]) <= n
    ensures FirstEnd(n, replies) <= LoopUses(replies[..FirstEnd(n, replies)]) + PortIdReplies(replies)
    decreases |replies|
  {
    var e := FirstEnd(n, replies);
    if e > 0 {
      assert replies[..e][1..] == replies[1..][..e - 1];
      UsesWithinFree(if replies[0].LoopIdUsed? then n - 1 else n, replies[1..]);
    }
  }

  // One reply that does not end the loop: what it leaves in hand is what the rest starts from.
  lemma InHandStep(ids: seq<nat>, own: nat, r: Reply, rest: seq<Reply>)
    requires r.PortIdUsed? || (r.LoopIdUsed? && ids != [])
    requires forall k | 0 <= k < |rest| :: rest[k].PortIdUsed? || rest[k].LoopIdUsed?
    requires LoopUses([r] + rest) <= |ids|
    ensures InHand(ids, own, [r] + rest) ==
            if r.PortIdUsed? then InHand(ids, r.id, rest) else InHand(ids[1..], ids[0], rest)
    ensures LoopUses([r] + rest) == LoopUses(rest) + if r.LoopIdUsed? then 1 else 0
  {
    var all := [r] + rest;
    assert all[1..] == rest;
    if rest != [] {
      assert all[|all| - 1] == rest[|rest| - 1];
      if rest[|rest| - 1].LoopIdUsed? { LastUseCounts(rest); }
    }
  }

  lemma {:induction false} LastUseCounts(rs: seq<Reply>)
    requires rs != [] && rs[|rs| - 1].LoopIdUsed?
    ensures LoopUses(rs) > 0
  {
    if |rs| > 1 { LastUseCounts(rs[1..]); }
  }

  // What the run must come to, from the bitmap, the port's identifier and the replies alone.
  ghost predicate RunsAsRead(f: Family, s: Login, replies: seq<Reply>) {
    var o, ids := RunLogin(f, s, replies), FreeIds(f, s.bits);
    var e := FirstEnd(|ids|, replies);
    var k := LoopUses(replies[..e]);
    && k <= |ids| && o.taken == ids[..k]
    && o.attempts == (if e < |replies| then e + 1 else e)
    && (o.dropped.Some? <==> e < |replies| && replies[e].Other?)
    && (o.dropped.Some? ==> o.dropped.value == InHand(ids, s.loopId, replies[..e]))
  }

  lemma ReadsPortId(f: Family, s: Login, replies: seq<Reply>)
    requires replies != [] && replies[0].PortIdUsed?
    requires RunsAsRead(f, Login(s.bits, replies[0].id, s.retry + 1, s.loopId), replies[1..])
    ensures RunsAsRead(f, s, replies)
  {
    var ids := FreeIds(f, s.bits);
    var e := FirstEnd(|ids|, replies);
    UsesWithinFree(|ids|, replies);
    assert replies[..e] == [replies[0]] + replies[1..][..e - 1];
    InHandStep(ids, s.loopId, replies[0], replies[1..][..e - 1]);
  }

  lemma ReadsLoopId(f: Family, s: Login, replies: seq<Reply>)
    requires Sealed(f, s.bits) && replies != [] && replies[0].LoopIdUsed?
    requires FreeIds(f, s.bits) != [] ==>
               var id := FreeIds(f, s.bits)[0];
               id < |s.bits| && RunsAsRead(f, s.(loopId := id, bits := s.bits[id := true]), replies[1..])
    ensures RunsAsRead(f, s, replies)
  {
    var ids := FreeIds(f, s.bits);
    GrantFailsIffNoneFree(f, s.bits);
    GrantTakesFirst(f, s.bits);
    if ids != [] {
      var e := FirstEnd(|ids|, replies);
      UsesWithinFree(|ids|, replies);
      assert replies[..e] == [replies[0]] + replies[1..][..e - 1];
      InHandStep(ids, s.loopId, replies[0], replies[1..][..e - 1]);
      assert ids[1..] == FreeIds(f, s.bits[ids[0] := true]);
    }
  }

  /** A login is determined by its replies: identifiers taken, attempts made, and the identifier dropped. */
  lemma {:induction false} LoginRunsAsRead(f: Family, s: Login, replies: seq<Reply>)
    requires Sealed(f, s.bits)
    ensures RunsAsRead(f, s, replies)
    decreases |replies|
  {
    if replies != [] {
      if replies[0].PortIdUsed? {
        LoginRunsAsRead(f, Login(s.bits, replies[0].id, s.retry + 1, s.loopId), replies[1..]);
        ReadsPortId(f, s, replies);
      } else if replies[0].LoopIdUsed? {
        GrantFailsIffNoneFree(f, s.bits);
        GrantTakesFirst(f, s.bits);
        if FreeIds(f, s.bits) != [] {
          var id := FreeIds(f, s.bits)[0];
          LoginRunsAsRead(f, s.(loopId := id, bits := s.bits[id := true]), replies[1..]);
        }
        ReadsLoopId(f, s, replies);
      }
    }
  }

  /**
   Bound: whatever the firmware answers, the loop makes at most one attempt per free identifier, one
   per PORT_ID_USED reply, and one more; and the identifiers taken are the first free ones, one for each
   LOOP_ID_USED reply that did not end it.
   */
  lemma LoginAttemptsBounded(f: Family, s: Login, replies: seq<Reply>)
    requires Sealed(f, s.bits)
    ensures var o, ids := RunLogin(f, s, replies), FreeIds(f, s.bits);
            && o.attempts <= |o.taken| + PortIdReplies(replies) + 1 && |o.taken| <= |ids|
            && LoopUses(replies[..FirstEnd(|ids|, replies)]) <= |ids|
            && o.taken == ids[..LoopUses(replies[..FirstEnd(|ids|, replies)])]
  {
    LoginRunsAsRead(f, s, replies);
    UsesWithinFree(|FreeIds(f, s.bits)|, replies);
  }

  // The identifier set aside by the last PORT_ID_USED reply: the one in hand just before it.
  function SetAside(ids: seq<nat>, own: nat, before: seq<Reply>): Option<nat> {
    if before == [] then None
    else
      var front := before[..|before| - 1];
      if before[|before| - 1].PortIdUsed? then Some(InHand(ids, own, front)) else SetAside(ids, own, front)
  }

  lemma {:induction false} UsesInFront(front: seq<Reply>, r: Reply)
    ensures LoopUses(front) <= LoopUses(front + [r])
  {
    if front != [] {
      UsesInFront(front[1..], r);
      assert (front + [r])[1..] == front[1..] + [r];
    }
  }

  lemma {:induction false} SetAsideStep(ids: seq<nat>, own: nat, r: Reply, rest: seq<Reply>)
    requires r.PortIdUsed? || (r.LoopIdUsed? && ids != [])
    requires forall k | 0 <= k < |rest| :: rest[k].PortIdUsed? || rest[k].LoopIdUsed?
    requires LoopUses([r] + rest) <= |ids|
    ensures SetAside(ids, own, [r] + rest) ==
            match (if r.PortIdUsed? then SetAside(ids, r.id, rest) else SetAside(ids[1..], ids[0], rest))
            case Some(x) => Some(x)
            case None => if r.PortIdUsed? then Some(own) else None
    decreases |rest|
  {
    var all := [r] + rest;
    if rest == [] {
      assert all[..0] == [];
    } else {
      var front := rest[..|rest| - 1];
      assert all[..|all| - 1] == [r] + front && all == ([r] + front) + [rest[|rest| - 1]];
      UsesInFront([r] + front, rest[|rest| - 1]);
      InHandStep(ids, own, r, front);
      SetAsideStep(ids, own, r, front);
    }
  }

  // How the run must end: result, next identifier to try, and the port's identifier, by the ending reply.
  ghost predicate EndsAsRead(f: Family, s: Login, replies: seq<Reply>) {
    var o, ids := RunLogin(f, s, replies), FreeIds(f, s.bits);
    var e := FirstEnd(|ids|, replies);
    EndIs(f, o, if e < |replies| then Some(replies[e]) else None, InHand(ids, s.loopId, replies[..e]),
          match SetAside(ids, s.loopId, replies[..e])
          case Some(x) => Some(x)
          case None => if s.retry > 0 then Some(s.tmp) else None)
  }

  predicate EndIs(f: Family, o: Outcome, end: Option<Reply>, inHand: nat, aside: Option<nat>) {
    match end
    case None => o.rval == None && o.next == None && o.at.loopId == inHand
    case Some(Failed(r)) => o.rval == Some(r) && o.next == None && o.at.loopId == inHand
    case Some(Complete) =>
      && o.rval == Some(0) && o.at.loopId == inHand
      && o.next == Some(match aside case Some(x) => x case None => (inHand + 1) % 0x1_0000)
    case Some(LoopIdUsed) => o.rval == Some(0x102) && o.next == None && o.at.loopId == 0x1000
    case Some(CommandError) => o.rval == Some(1) && o.next == Some(inHand) && o.at.loopId == inHand
    case Some(Other) =>
      && o.rval == Some(3) && o.next == Some(inHand)
      && o.at.loopId == if inHand != 0x1000 && !f.Reserved(inHand) then 0x1000 else inHand
    case Some(PortIdUsed(_)) => false
  }

  lemma EndsPortId(f: Family, s: Login, replies: seq<Reply>)
    requires replies != [] && replies[0].PortIdUsed?
    requires EndsAsRead(f, Login(s.bits, replies[0].id, s.retry + 1, s.loopId), replies[1..])
    ensures EndsAsRead(f, s, replies)
  {
    var ids := FreeIds(f, s.bits);
    var e := FirstEnd(|ids|, replies);
    UsesWithinFree(|ids|, replies);
    assert replies[..e] == [replies[0]] + replies[1..][..e - 1];
    InHandStep(ids, s.loopId, replies[0], replies[1..][..e - 1]);
    SetAsideStep(ids, s.loopId, replies[0], replies[1..][..e - 1]);
  }

  lemma EndsLoopId(f: Family, s: Login, replies: seq<Reply>)
    requires Sealed(f, s.bits) && replies != [] && replies[0].LoopIdUsed?
    requires FreeIds(f, s.bits) != [] ==>
               var id := FreeIds(f, s.bits)[0];
               id < |s.bits| && EndsAsRead(f, s.(loopId := id, bits := s.bits[id := true]), replies[1..])
    ensures EndsAsRead(f, s, replies)
  {
    var ids := FreeIds(f, s.bits);
    GrantFailsIffNoneFree(f, s.bits);
    GrantTakesFirst(f, s.bits);
    if ids != [] {
      var e := FirstEnd(|ids|, replies);
      UsesWithinFree(|ids|, replies);
      assert replies[..e] == [replies[0]] + replies[1..][..e - 1];
      InHandStep(ids, s.loopId, replies[0], replies[1..][..e - 1]);
      SetAsideStep(ids, s.loopId, replies[0], replies[1..][..e - 1]);
      assert ids[1..] == FreeIds(f, s.bits[ids[0] := true]);
    }
  }

  /**
   What a login returns, from the replies alone.  A completed login names as the next identifier to try the
   one set aside by the last PORT_ID_USED reply, or without one the identifier after its own; a command error
   and an unhandled status name the identifier in hand; the other endings name none.
   */
  lemma {:induction false} LoginEndsAsRead(f: Family, s: Login, replies: seq<Reply>)
    requires Sealed(f, s.bits)
    ensures EndsAsRead(f, s, replies)
    decreases |replies|
  {
    if replies != [] {
      if replies[0].PortIdUsed? {
        LoginEndsAsRead(f, Login(s.bits, replies[0].id, s.retry + 1, s.loopId), replies[1..]);
        EndsPortId(f, s, replies);
      } else if replies[0].LoopIdUsed? {
        GrantFailsIffNoneFree(f, s.bits);
        GrantTakesFirst(f, s.bits);
        if FreeIds(f, s.bits) != [] {
          var id := FreeIds(f, s.bits)[0];
          LoginEndsAsRead(f, s.(loopId := id, bits := s.bits[id := true]), replies[1..]);
        }
        EndsLoopId(f, s, replies);
      } else {
        assert replies[..0] == [];
      }
    }
  }

  // Bit i after the run: set if it was set or taken, unless the identifier was dropped and may be cleared.
  ghost predicate BitRuns(f: Family, s: Login, replies: seq<Reply>, i: nat)
    requires i < |s.bits|
  {
    var o := RunLogin(f, s, replies);
    && |o.at.bits| == |s.bits|
    && (i in o.taken ==> !s.bits[i] && !f.Reserved(i))
    && (o.dropped.Some? ==> o.rval == Some(3) && o.next == o.dropped)
    && o.at.bits[i] == ((s.bits[i] || i in o.taken) && !(o.dropped == Some(i) && Clears(f, i)))
  }

  lemma GrantedBitRuns(f: Family, s: Login, replies: seq<Reply>, i: nat, id: nat)
    requires Sealed(f, s.bits) && i < |s.bits| && replies != [] && replies[0].LoopIdUsed?
    requires Grant(f, s.bits) == Some(id) && id < |s.bits| && !s.bits[id] && !f.Reserved(id)
    requires BitRuns(f, s.(loopId := id, bits := s.bits[id := true]), replies[1..], i)
    ensures BitRuns(f, s, replies, i)
  {
  }

  lemma {:induction false} LoginTouchesOnlyItsBits(f: Family, s: Login, replies: seq<Reply>, i: nat)
    requires Sealed(f, s.bits) && i < |s.bits|
    ensures BitRuns(f, s, replies, i) && Sealed(f, RunLogin(f, s, replies).at.bits)
    decreases |replies|
  {
    if replies != [] {
      GrantFailsIffNoneFree(f, s.bits);
      ClearKeepsSealed(f, s.bits, s.loopId);
      if replies[0].PortIdUsed? {
        LoginTouchesOnlyItsBits(f, Login(s.bits, replies[0].id, s.retry + 1, s.loopId), replies[1..], i);
      } else if replies[0].LoopIdUsed? && Grant(f, s.bits).Some? {
        var id := Grant(f, s.bits).value;
        LoginTouchesOnlyItsBits(f, s.(loopId := id, bits := s.bits[id := true]), replies[1..], i);
        GrantedBitRuns(f, s, replies, i, id);
      }
    }
  }

  /**
   Bitmap, from the replies alone: afterwards a bit is set exactly if it was set before or its identifier
   is among those granted, unless the ending reply is an unhandled status and the identifier then in hand
   is this one and may be cleared.
   */
  lemma LoginBits(f: Family, s: Login, replies: seq<Reply>, i: nat)
    requires Sealed(f, s.bits) && i < |s.bits|
    ensures var ids, o := FreeIds(f, s.bits), RunLogin(f, s, replies);
            var e := FirstEnd(|ids|, replies);
            && LoopUses(replies[..e]) <= |ids| && |o.at.bits| == |s.bits|
            && o.at.bits[i] == (
                 && (s.bits[i] || i in ids[..LoopUses(replies[..e])])
                 && !(e < |replies| && replies[e].Other? && InHand(ids, s.loopId, replies[..e]) == i && Clears(f, i)))
  {
    LoginRunsAsRead(f, s, replies);
    LoginTouchesOnlyItsBits(f, s, replies, i);
  }

  /**
   When a login frees an identifier that was in use: exactly when its ending reply is an unhandled status,
   the identifier in hand then is that one, and it may be cleared.
   */
  lemma FreesExactly(f: Family, s: Login, replies: seq<Reply>, i: nat)
    requires Sealed(f, s.bits) && i < |s.bits| && s.bits[i]
    ensures var ids := FreeIds(f, s.bits);
            var e := FirstEnd(|ids|, replies);
            |RunLogin(f, s, replies).at.bits| == |s.bits| &&
            (!RunLogin(f, s, replies).at.bits[i] <==>
             e < |replies| && replies[e].Other? && InHand(ids, s.loopId, replies[..e]) == i && Clears(f, i))
  {
    LoginBits(f, s, replies, i);
  }

  /**
   A PORT_ID_USED reply puts the firmware's identifier in hand, so an unhandled status after it
   clears a bit this port was never granted: here the one of another port, 9.
   */
  lemma UnhandledStatusCanFreeAnothersId(bits: seq<bool>)
    requires |bits| == 2048 && bits[5] && bits[9] && Sealed(Fwi2, bits)
    ensures var o := RunLogin(Fwi2, Login(bits, 5, 0, 0), [PortIdUsed(9), Other]);
            o.rval == Some(3) && o.taken == [] && o.at.bits == bits[9 := false]
  {
    assert [PortIdUsed(9), Other][1..] == [Other];
  }

  // ---------- the driver ----------

  class FcPort {
    var loopId: nat
    constructor () ensures loopId == NO_LOOP_ID { loopId := NO_LOOP_ID; }
  }

  class Adapter {
    const family: Family
    const loopIdMap: array<bool>

    ghost predicate Valid()
      reads this, loopIdMap
    {
      Sealed(family, loopIdMap[..])
    }

    /** A fresh bitmap; the older adapters set aside the local, management and broadcast identifiers. */
    constructor (family: Family, maxFibreDevices: u16)
      requires family.Legacy? ==> maxFibreDevices > BROADCAST
      ensures this.family == family && loopIdMap.Length == maxFibreDevices && fresh(loopIdMap)
      ensures Valid()
      ensures forall i | 0 <= i < maxFibreDevices ::
                loopIdMap[i] <==> family.Legacy? && (i < SNS_FIRST_LOOP_ID || i == MANAGEMENT_SERVER || i == BROADCAST)
    {
      this.family := family;
      loopIdMap := new bool[maxFibreDevices](_ => false);
      new;
      if family.Legacy? {
        for i := 0 to SNS_FIRST_LOOP_ID
          invariant forall k | 0 <= k < maxFibreDevices :: loopIdMap[k] <==> k < i
        {
          loopIdMap[i] := true;
        }
        loopIdMap[MANAGEMENT_SERVER] := true;
        loopIdMap[BROADCAST] := true;
      }
    }

    method FindFirstZeroBit() returns (i: nat)
      ensures i == FirstZero(loopIdMap[..], 0)
    {
      i := 0;
      while i < loopIdMap.Length && loopIdMap[i]
        invariant i <= loopIdMap.Length && FirstZero(loopIdMap[..], 0) == FirstZero(loopIdMap[..], i)
      {
        i := i + 1;
      }
    }

    /** Takes the first zero bit for the port, unless there is none or it is reserved. */
    method FindNewLoopId(port: FcPort) returns (rval: int)
      requires Valid()
      modifies port, loopIdMap
      ensures Valid() && loopIdMap[..] == Apply(family, old(loopIdMap[..]), Find)
      ensures match Grant(family, old(loopIdMap[..]))
              case None => rval == FUNCTION_FAILED && port.loopId == NO_LOOP_ID
              case Some(id) => rval == 0 && port.loopId == id
    {
      GrantFailsIffNoneFree(family, loopIdMap[..]);
      ghost var was := loopIdMap[..];
      rval := 0;
      port.loopId := FindFirstZeroBit();
      if port.loopId >= loopIdMap.Length || family.Reserved(port.loopId) {
        port.loopId := NO_LOOP_ID;
        rval := FUNCTION_FAILED;
      } else {
        loopIdMap[port.loopId] := true;
        assert loopIdMap[..] == was[port.loopId := true];
      }
    }

    /** Gives the port's identifier back, unless it has none or a reserved one. */
    method ClearLoopId(port: FcPort)
      requires Valid()
      modifies port, loopIdMap
      ensures Valid() && loopIdMap[..] == Cleared(family, old(loopIdMap[..]), old(port.loopId))
      ensures port.loopId == if Clears(family, old(port.loopId)) then NO_LOOP_ID else old(port.loopId)
    {
      ClearKeepsSealed(family, loopIdMap[..], port.loopId);
      if port.loopId == NO_LOOP_ID || family.Reserved(port.loopId) { return; }
      if port.loopId < loopIdMap.Length {
        ghost var was := loopIdMap[..];
        loopIdMap[port.loopId] := false;
        assert loopIdMap[..] == was[port.loopId := false];
      }
      port.loopId := NO_LOOP_ID;
    }

    /** The login loop, answered by a list of replies; rval is None when they run out. */
    method FabricLogin(port: FcPort, replies: seq<Reply>)
      returns (rval: Option<int>, next: Option<nat>, attempts: nat)
      requires Valid()
      modifies port, loopIdMap
      ensures Valid()
      ensures var o := RunLogin(family, Login(old(loopIdMap[..]), old(port.loopId), 0, 0), replies);
              && rval == o.rval && next == o.next && attempts == o.attempts
              && loopIdMap[..] == o.at.bits && port.loopId == o.at.loopId
      ensures EndsAsRead(family, Login(old(loopIdMap[..]), old(port.loopId), 0, 0), replies)
    {
      var retry: nat, tmp: nat := 0, 0;
      LoginEndsAsRead(family, Login(loopIdMap[..], port.loopId, 0, 0), replies);
      rval, next, attempts := None, None, 0;
      ghost var all := RunLogin(family, Login(loopIdMap[..], port.loopId, 0, 0), replies);
      while attempts < |replies|
        invariant Valid() && attempts <= |replies|
        invariant var o := RunLogin(family, Login(loopIdMap[..], port.loopId, retry, tmp), replies[attempts..]);
                  && all.rval == o.rval && all.next == o.next && all.attempts == o.attempts + attempts
                  && all.at.bits == o.at.bits && all.at.loopId == o.at.loopId
      {
        var reply := replies[attempts];
        assert replies[attempts..][1..] == replies[attempts + 1..];
        attempts := attempts + 1;
        match reply
        case Failed(r) => return Some(r), None, attempts;
        case PortIdUsed(id) =>
          retry := retry + 1;
          tmp := port.loopId;
          port.loopId := id;
        case Complete =>
          return Some(0), Some(if retry > 0 then tmp else (port.loopId + 1) % TWO16), attempts;
        case LoopIdUsed =>
          port.loopId := port.loopId + 1;
          var r := FindNewLoopId(port);
          if r != 0 { return Some(r), None, attempts; }
        case CommandError => return Some(1), Some(port.loopId), attempts;
        case Other =>
          next := Some(port.loopId);
          ClearLoopId(port);
          return Some(3), next, attempts;
      }
      assert replies[attempts..] == [];
    }
  }
}
