/**
 Virtual-port walks, SRB references and teardown as one protocol of arbitrarily many agents.  Each
 action is one atomic step: taking or dropping the spinlock, one atomic counter update, one test of
 a flag.  Memory is sequentially consistent.
 */
module Vport {
  import opened Words

  type Id = nat

  // Where an agent stands.  A walker carries the set of ports its walk has finished with; a deleter
  // carries whether it has set the delete-in-progress flag.
  datatype Pc =
    | Idle
    | At(v: Id, seen: set<Id>)       // walker, lock held, standing at v
    | Marked(v: Id, seen: set<Id>)   // reference taken, lock still held
    | Away(v: Id, seen: set<Id>)     // working on v without the lock
    | Back(v: Id, seen: set<Id>)     // lock taken again
    | Left(v: Id, seen: set<Id>)     // reference dropped, about to read v's successor
    | Ended(seen: set<Id>)           // walk over
    | Busy(v: Id)                    // get_sp: counter raised, flag not yet tested
    | Bailing(v: Id)                 // flag was set, counter not yet lowered
    | Granted(v: Id)                 // SRB handed out
    | Waiting(v: Id)                 // deleter, sleeping or about to take the lock
    | Checking(v: Id)                // deleter, lock held, about to read the counter
    | Removing(v: Id)                // deleter, lock held, counter was zero
    | Unlinked(v: Id)                // deleter, off the list, lock held
    | Deleted(v: Id)

  datatype State = State(
    list: seq<Id>,             // the port list
    vref: map<Id, nat>,        // reference counter of every port ever created
    flag: set<Id>,             // ports with delete_progress set
    lock: Option<nat>,         // holder of vport_slock
    pcs: map<nat, Pc>,         // an agent not listed is idle
    drained: set<Id>,          // ports whose flagged deleter has seen a zero counter
    lost: map<Id, nat>)        // SRBs freed without lowering the counter

  function PcOf(s: State, t: nat): Pc { if t in s.pcs then s.pcs[t] else Idle }

  predicate HasLock(pc: Pc) {
    pc.At? || pc.Marked? || pc.Back? || pc.Left? || pc.Checking? || pc.Removing? || pc.Unlinked?
  }

  predicate Walks(pc: Pc) { pc.At? || pc.Marked? || pc.Away? || pc.Back? || pc.Left? }

  // The port on which the agent has raised the counter.
  function RefOn(pc: Pc): Option<Id> {
    if pc.Marked? || pc.Away? || pc.Back? || pc.Busy? || pc.Bailing? || pc.Granted? then Some(pc.v) else None
  }

  datatype Action =
    | Create(v: Id)            // list_add_tail under the lock
    | StartWalk                // lock, first port
    | Mark | Release | Retake | Unmark | Skip | Next
    | GetSp(v: Id) | TestFlag | Bail | RelSp | LoseSp
    | SetFlag(v: Id)
    | BeginWait(v: Id) | TakeLock | Check | Unlink | DropLock

  function IndexIn(l: seq<Id>, v: Id): nat
    requires v in l
    ensures IndexIn(l, v) < |l| && l[IndexIn(l, v)] == v
  {
    if l[0] == v then 0 else 1 + IndexIn(l[1..], v)
  }

  function Without(l: seq<Id>, v: Id): seq<Id> {
    if l == [] then [] else if l[0] == v then Without(l[1..], v) else [l[0]] + Without(l[1..], v)
  }

  ghost predicate Enabled(s: State, t: nat, a: Action) {
    var pc := PcOf(s, t);
    match a
    case Create(v) => pc == Idle && s.lock == None && v !in s.vref
    case StartWalk => pc == Idle && s.lock == None
    case Mark => pc.At?
    case Release => pc.Marked? || pc.Back?     // a walk may drop the lock more than once at a port
    case Retake => pc.Away? && s.lock == None
    case Unmark => pc.Marked? || pc.Back?
    case Skip => pc.At?                        // the physical port is passed over by some walks
    case Next => pc.Left?
    case GetSp(v) => pc == Idle && v in s.vref
    case TestFlag => pc.Busy?
    case Bail => pc.Bailing?
    case RelSp => pc.Granted?
    case LoseSp => pc.Granted?
    case SetFlag(v) => v in s.vref
    case BeginWait(v) => pc == Idle && v in s.vref
    case TakeLock => pc.Waiting? && s.lock == None
    case Check => pc.Checking?
    case Unlink => pc.Removing?
    case DropLock => pc.Unlinked?
  }

  function Count(m: map<Id, nat>, v: Id): nat { if v in m then m[v] else 0 }
  function Up(m: map<Id, nat>, v: Id): map<Id, nat> { m[v := Count(m, v) + 1] }
  function Down(m: map<Id, nat>, v: Id): map<Id, nat> { m[v := if Count(m, v) == 0 then 0 else Count(m, v) - 1] }

  function Move(s: State, t: nat, pc: Pc): State { s.(pcs := s.pcs[t := pc]) }

  function Step(s: State, t: nat, a: Action): State {
    var pc := PcOf(s, t);
    match a
    case Create(v) => s.(list := s.list + [v], vref := s.vref[v := 0], lost := s.lost[v := 0])
    case StartWalk =>
      if s.list == [] then Move(s, t, Ended({})) else Move(s.(lock := Some(t)), t, At(s.list[0], {}))
    case Mark => if pc.At? then Move(s.(vref := Up(s.vref, pc.v)), t, Marked(pc.v, pc.seen)) else s
    case Release => if pc.Marked? || pc.Back? then Move(s.(lock := None), t, Away(pc.v, pc.seen)) else s
    case Retake => if pc.Away? then Move(s.(lock := Some(t)), t, Back(pc.v, pc.seen)) else s
    case Unmark =>
      if pc.Marked? || pc.Back? then Move(s.(vref := Down(s.vref, pc.v)), t, Left(pc.v, pc.seen + {pc.v})) else s
    case Skip => if pc.At? then Move(s, t, Left(pc.v, pc.seen + {pc.v})) else s
    case Next =>
      if pc.Left? && pc.v in s.list then
        var i := IndexIn(s.list, pc.v) + 1;
        if i < |s.list| then Move(s, t, At(s.list[i], pc.seen)) else Move(s.(lock := None), t, Ended(pc.seen))
      else s
    case GetSp(v) => Move(s.(vref := Up(s.vref, v)), t, Busy(v))
    case TestFlag => if pc.Busy? then Move(s, t, if pc.v in s.flag then Bailing(pc.v) else Granted(pc.v)) else s
    case Bail => if pc.Bailing? then Move(s.(vref := Down(s.vref, pc.v)), t, Idle) else s
    case RelSp => if pc.Granted? then Move(s.(vref := Down(s.vref, pc.v)), t, Idle) else s
    case LoseSp => if pc.Granted? then Move(s.(lost := Up(s.lost, pc.v)), t, Idle) else s
    case SetFlag(v) => s.(flag := s.flag + {v})
    case BeginWait(v) => Move(s, t, Waiting(v))
    case TakeLock => if pc.Waiting? then Move(s.(lock := Some(t)), t, Checking(pc.v)) else s
    case Check =>
      if pc.Checking? then
        if Count(s.vref, pc.v) != 0 then Move(s.(lock := None), t, Waiting(pc.v))
        else Move(s.(drained := if pc.v in s.flag then s.drained + {pc.v} else s.drained), t, Removing(pc.v))
      else s
    case Unlink => if pc.Removing? then Move(s.(list := Without(s.list, pc.v)), t, Unlinked(pc.v)) else s
    case DropLock => if pc.Unlinked? then Move(s.(lock := None), t, Deleted(pc.v)) else s
  }

  // ---------- the invariant ----------

  ghost function Refs(pcs: map<nat, Pc>, v: Id): set<nat> {
    set t | t in pcs && RefOn(pcs[t]) == Some(v)
  }

  // The counter is exactly the raised references, SRBs freed without lowering it included.
  ghost predicate Counted(s: State) {
    forall v | v in s.vref :: v in s.lost && s.vref[v] == |Refs(s.pcs, v)| + s.lost[v]
  }

  ghost predicate LockOk(s: State) {
    && (forall t | t in s.pcs && HasLock(s.pcs[t]) :: s.lock == Some(t))
    && (s.lock.Some? ==> s.lock.value in s.pcs && HasLock(s.pcs[s.lock.value]))
  }

  ghost predicate ListOk(s: State) {
    && (forall i, j | 0 <= i < j < |s.list| :: s.list[i] != s.list[j])
    && (forall i | 0 <= i < |s.list| :: s.list[i] in s.vref)
  }

  // What is known of one agent.
  ghost predicate AgentOk(s: State, pc: Pc) {
    && (RefOn(pc).Some? ==> RefOn(pc).value in s.vref)
    && (Walks(pc) ==> pc.v in s.list && WalkOk(s, pc))
    && (pc.Ended? ==> pc.seen <= s.vref.Keys)
    && (pc.Granted? ==> pc.v !in s.drained)
    && (pc.Waiting? || pc.Checking? || pc.Removing? ==> pc.v in s.vref)
  }

  // A walk has finished with every listed port before its own, and with none from there on.
  ghost predicate WalkOk(s: State, pc: Pc)
    requires Walks(pc)
  {
    && pc.seen <= s.vref.Keys && (pc.v in pc.seen <==> pc.Left?)
    && forall i, j {:trigger s.list[i], s.list[j]} | 0 <= i < |s.list| && 0 <= j < |s.list| && s.list[j] == pc.v ::
         (i < j ==> s.list[i] in pc.seen) && (i > j ==> s.list[i] !in pc.seen)
  }

  // A deleter past the zero check: nobody walks at its port.
  ghost predicate RemovalOk(s: State) {
    forall t, u | t in s.pcs && u in s.pcs && s.pcs[t].Removing? && Walks(s.pcs[u]) :: s.pcs[u].v != s.pcs[t].v
  }

  ghost predicate DrainedOk(s: State) {
    s.drained <= s.flag && forall v | v in s.drained :: Count(s.lost, v) == 0
  }

  ghost predicate Inv(s: State) {
    && Counted(s) && LockOk(s) && ListOk(s) && RemovalOk(s) && DrainedOk(s)
    && forall t | t in s.pcs :: AgentOk(s, s.pcs[t])
  }

  const INIT := State([], map[], {}, None, map[], {}, map[])

  // ---------- counting references ----------

  lemma RefsMove(pcs: map<nat, Pc>, t: nat, pc: Pc, v: Id)
    ensures var was := t in pcs && RefOn(pcs[t]) == Some(v);
            var now := RefOn(pc) == Some(v);
            |Refs(pcs[t := pc], v)| == |Refs(pcs, v)| - (if was then 1 else 0) + (if now then 1 else 0)
  {
    var a, b := Refs(pcs, v), Refs(pcs[t := pc], v);
    if RefOn(pc) == Some(v) {
      assert b == (a - {t}) + {t};
    } else {
      assert b == a - {t};
    }
  }

  // A step that moves agent t and adjusts the counter of one port by the reference gained or lost.
  lemma CountedMoves(s: State, s': State, t: nat, pc: Pc)
    requires Counted(s) && s'.pcs == s.pcs[t := pc] && s'.vref.Keys == s.vref.Keys && s'.lost.Keys == s.lost.Keys
    requires forall v | v in s.vref && v in s.lost ::
               s'.vref[v] + s.lost[v] + (if RefOn(PcOf(s, t)) == Some(v) then 1 else 0)
               == s.vref[v] + s'.lost[v] + (if RefOn(pc) == Some(v) then 1 else 0)
    ensures Counted(s')
  {
    forall v | v in s'.vref ensures v in s'.lost && s'.vref[v] == |Refs(s'.pcs, v)| + s'.lost[v] {
      RefsMove(s.pcs, t, pc, v);
    }
  }

  lemma CountedSame(s: State, s': State, t: nat, pc: Pc)
    requires Counted(s) && s'.pcs == s.pcs[t := pc] && s'.vref == s.vref && s'.lost == s.lost
    requires RefOn(PcOf(s, t)) == RefOn(pc)
    ensures Counted(s')
  {
    CountedMoves(s, s', t, pc);
  }

  lemma CountedUp(s: State, s': State, t: nat, pc: Pc, v: Id)
    requires Counted(s) && s'.pcs == s.pcs[t := pc] && v in s.vref && s'.vref == Up(s.vref, v) && s'.lost == s.lost
    requires RefOn(PcOf(s, t)) == None && RefOn(pc) == Some(v)
    ensures Counted(s') && s'.vref.Keys == s.vref.Keys
  {
    CountedMoves(s, s', t, pc);
  }

  lemma CountedDown(s: State, s': State, t: nat, pc: Pc, v: Id)
    requires Counted(s) && s'.pcs == s.pcs[t := pc] && v in s.vref && s'.vref == Down(s.vref, v) && s'.lost == s.lost
    requires t in s.pcs && RefOn(s.pcs[t]) == Some(v) && RefOn(pc) == None
    ensures Counted(s') && s'.vref.Keys == s.vref.Keys
  {
    RefRaises(s, t);
    CountedMoves(s, s', t, pc);
  }

  lemma RefRaises(s: State, t: nat)
    requires Counted(s) && t in s.pcs && RefOn(s.pcs[t]).Some? && RefOn(s.pcs[t]).value in s.vref
    ensures s.vref[RefOn(s.pcs[t]).value] > s.lost[RefOn(s.pcs[t]).value]
  {
    var v := RefOn(s.pcs[t]).value;
    assert t in Refs(s.pcs, v);
  }

  // ---------- lists ----------

  lemma {:induction false} WithoutKeepsOrder(l: seq<Id>, v: Id, k: nat) returns (i: nat)
    requires k < |Without(l, v)|
    ensures i < |l| && k <= i && l[i] == Without(l, v)[k] && l[i] != v
    decreases |l|
  {
    if l[0] == v {
      i := WithoutKeepsOrder(l[1..], v, k);
      i := i + 1;
    } else if k == 0 {
      i := 0;
    } else {
      i := WithoutKeepsOrder(l[1..], v, k - 1);
      i := i + 1;
    }
  }

  lemma {:induction false} WithoutMembers(l: seq<Id>, v: Id)
    ensures forall u :: u in Without(l, v) <==> u in l && u != v
  {
    if l != [] { WithoutMembers(l[1..], v); }
  }

  // ---------- preservation ----------

  // The ordinary step: one agent moves, the list stays.
  lemma MoveKeeps(s: State, s': State, t: nat, pc: Pc)
    requires Inv(s)
    requires s'.list == s.list && s'.vref.Keys == s.vref.Keys && s'.drained == s.drained && s'.flag >= s.flag
    requires s'.pcs == s.pcs[t := pc] && Counted(s') && LockOk(s') && DrainedOk(s')
    requires AgentOk(s', pc) && !pc.Removing?
    requires Walks(pc) ==> forall u | u in s.pcs && s.pcs[u].Removing? :: s.pcs[u].v != pc.v
    ensures Inv(s')
  {
    forall u | u in s'.pcs ensures AgentOk(s', s'.pcs[u]) {
      if u != t { AgentKeeps(s, s', s.pcs[u]); }
    }
  }

  lemma AgentKeeps(s: State, s': State, pc: Pc)
    requires AgentOk(s, pc) && s'.list == s.list && s'.vref.Keys == s.vref.Keys && s'.drained == s.drained
    ensures AgentOk(s', pc)
  {
  }

  // A walker that keeps its place, and one that has finished with it.
  lemma StaysAt(s: State, s': State, pc: Pc, pc': Pc)
    requires AgentOk(s, pc) && Walks(pc) && Walks(pc') && !pc.Left? && pc'.v == pc.v
    requires pc'.seen == if pc'.Left? then pc.seen + {pc.v} else pc.seen
    requires s'.list == s.list && s'.vref.Keys == s.vref.Keys && ListOk(s)
    ensures AgentOk(s', pc')
  {
    WalkerInMap(s, pc);
  }

  lemma WalkerSteps(s: State, t: nat, a: Action)
    requires Inv(s) && Enabled(s, t, a) && (a.Mark? || a.Release? || a.Retake? || a.Unmark? || a.Skip?)
    ensures Inv(Step(s, t, a))
  {
    var s', pc := Step(s, t, a), s.pcs[t];
    var pc' := s'.pcs[t];
    assert AgentOk(s, pc);
    WalkerInMap(s, pc);
    if a.Mark? { CountedUp(s, s', t, pc', pc.v); }
    else if a.Unmark? { CountedDown(s, s', t, pc', pc.v); }
    else { CountedSame(s, s', t, pc'); }
    StaysAt(s, s', pc, pc');
    MoveKeeps(s, s', t, pc');
  }

  lemma WalkerInMap(s: State, pc: Pc)
    requires ListOk(s) && Walks(pc) && pc.v in s.list
    ensures pc.v in s.vref
  {
    var j :| 0 <= j < |s.list| && s.list[j] == pc.v;
    assert s.list[j] in s.vref;
  }

  lemma StartSteps(s: State, t: nat)
    requires Inv(s) && Enabled(s, t, StartWalk)
    ensures Inv(Step(s, t, StartWalk))
  {
    var s' := Step(s, t, StartWalk);
    CountedSame(s, s', t, s'.pcs[t]);
    forall u | u in s.pcs && s.pcs[u].Removing? ensures false {
      assert HasLock(s.pcs[u]);
    }
    MoveKeeps(s, s', t, s'.pcs[t]);
  }

  lemma NextSteps(s: State, t: nat)
    requires Inv(s) && Enabled(s, t, Next)
    ensures Inv(Step(s, t, Next))
  {
    var s', pc := Step(s, t, Next), s.pcs[t];
    var i := IndexIn(s.list, pc.v);
    CountedSame(s, s', t, s'.pcs[t]);
    forall u | u in s.pcs && s.pcs[u].Removing? ensures false {
      assert HasLock(s.pcs[u]);
    }
    assert AgentOk(s, pc) && s.list[i] == pc.v;
    if i + 1 < |s.list| { NextPlace(s, pc, i); }
    MoveKeeps(s, s', t, s'.pcs[t]);
  }

  lemma NextPlace(s: State, pc: Pc, i: nat)
    requires ListOk(s) && pc.Left? && AgentOk(s, pc) && i + 1 < |s.list| && s.list[i] == pc.v
    ensures AgentOk(s, At(s.list[i + 1], pc.seen))
  {
    forall a, b | 0 <= a < |s.list| && 0 <= b < |s.list| && s.list[b] == s.list[i + 1]
      ensures (a < b ==> s.list[a] in pc.seen) && (a > b ==> s.list[a] !in pc.seen)
    {
      assert b == i + 1;
      assert (a < i ==> s.list[a] in pc.seen) && (a > i ==> s.list[a] !in pc.seen);
    }
    assert s.list[i + 1] !in pc.seen;
  }

  lemma GetSteps(s: State, t: nat, v: Id)
    requires Inv(s) && Enabled(s, t, GetSp(v))
    ensures Inv(Step(s, t, GetSp(v)))
  {
    var s' := Step(s, t, GetSp(v));
    CountedUp(s, s', t, Busy(v), v);
    MoveKeeps(s, s', t, Busy(v));
  }

  lemma TestSteps(s: State, t: nat)
    requires Inv(s) && Enabled(s, t, TestFlag)
    ensures Inv(Step(s, t, TestFlag))
  {
    var s' := Step(s, t, TestFlag);
    assert AgentOk(s, s.pcs[t]);
    CountedSame(s, s', t, s'.pcs[t]);
    MoveKeeps(s, s', t, s'.pcs[t]);
  }

  lemma ReturnSteps(s: State, t: nat, a: Action)
    requires Inv(s) && Enabled(s, t, a) && (a.Bail? || a.RelSp?)
    ensures Inv(Step(s, t, a))
  {
    assert AgentOk(s, s.pcs[t]);
    CountedDown(s, Step(s, t, a), t, Idle, s.pcs[t].v);
    MoveKeeps(s, Step(s, t, a), t, Idle);
  }

  lemma LoseSteps(s: State, t: nat)
    requires Inv(s) && Enabled(s, t, LoseSp)
    ensures Inv(Step(s, t, LoseSp))
  {
    assert AgentOk(s, s.pcs[t]);
    CountedMoves(s, Step(s, t, LoseSp), t, Idle);
    MoveKeeps(s, Step(s, t, LoseSp), t, Idle);
  }

  lemma CreateSteps(s: State, t: nat, v: Id)
    requires Inv(s) && Enabled(s, t, Create(v))
    ensures Inv(Step(s, t, Create(v)))
  {
    var s' := Step(s, t, Create(v));
    forall u | u in s.pcs ensures AgentOk(s', s.pcs[u]) {
      assert AgentOk(s, s.pcs[u]);
    }
    assert Refs(s.pcs, v) == {} by {
      forall u | u in s.pcs ensures RefOn(s.pcs[u]) != Some(v) { assert AgentOk(s, s.pcs[u]); }
    }
  }

  lemma FlagSteps(s: State, t: nat, v: Id)
    requires Inv(s) && Enabled(s, t, SetFlag(v))
    ensures Inv(Step(s, t, SetFlag(v)))
  {
    var s' := Step(s, t, SetFlag(v));
    forall u | u in s.pcs ensures AgentOk(s', s.pcs[u]) { AgentKeeps(s, s', s.pcs[u]); }
  }

  lemma DeleterSteps(s: State, t: nat, a: Action)
    requires Inv(s) && Enabled(s, t, a) && (a.BeginWait? || a.TakeLock? || a.DropLock?)
    ensures Inv(Step(s, t, a))
  {
    var s' := Step(s, t, a);
    if t in s.pcs { assert AgentOk(s, s.pcs[t]); }
    CountedSame(s, s', t, s'.pcs[t]);
    MoveKeeps(s, s', t, s'.pcs[t]);
  }

  // A zero counter means no reference on v, nothing lost, and, the lock being held, no walker there.
  lemma ZeroMeansAlone(s: State, t: nat, u: nat)
    requires Inv(s) && t in s.pcs && s.pcs[t].Checking? && u in s.pcs && u != t
    requires Count(s.vref, s.pcs[t].v) == 0
    ensures RefOn(s.pcs[u]) != Some(s.pcs[t].v) && Count(s.lost, s.pcs[t].v) == 0
    ensures Walks(s.pcs[u]) ==> s.pcs[u].v != s.pcs[t].v
  {
    assert AgentOk(s, s.pcs[t]) && AgentOk(s, s.pcs[u]);
    if RefOn(s.pcs[u]) == Some(s.pcs[t].v) { RefRaises(s, u); }
  }

  lemma CheckSteps(s: State, t: nat)
    requires Inv(s) && Enabled(s, t, Check)
    ensures Inv(Step(s, t, Check))
  {
    assert AgentOk(s, s.pcs[t]);
    if Count(s.vref, s.pcs[t].v) != 0 {
      var s' := Step(s, t, Check);
      CountedSame(s, s', t, s'.pcs[t]);
      MoveKeeps(s, s', t, s'.pcs[t]);
    } else {
      ZeroSteps(s, t);
    }
  }

  lemma ZeroSteps(s: State, t: nat)
    requires Inv(s) && Enabled(s, t, Check) && Count(s.vref, s.pcs[t].v) == 0
    ensures Inv(Step(s, t, Check))
  {
    var s', v := Step(s, t, Check), s.pcs[t].v;
    CountedSame(s, s', t, Removing(v));
    assert AgentOk(s, s.pcs[t]);
    assert Count(s.lost, v) == 0;
    forall u | u in s'.pcs ensures AgentOk(s', s'.pcs[u]) && (Walks(s'.pcs[u]) ==> s'.pcs[u].v != v) {
      if u != t {
        assert AgentOk(s, s.pcs[u]);
        ZeroMeansAlone(s, t, u);
      }
    }
  }

  lemma UnlinkSteps(s: State, t: nat)
    requires Inv(s) && Enabled(s, t, Unlink)
    ensures Inv(Step(s, t, Unlink))
  {
    var s', v := Step(s, t, Unlink), s.pcs[t].v;
    CountedSame(s, s', t, Unlinked(v));
    WithoutMembers(s.list, v);
    forall i, j | 0 <= i < j < |s'.list| ensures s'.list[i] != s'.list[j] {
      var a, b := WithoutStrict(s.list, v, i, j);
    }
    forall i | 0 <= i < |s'.list| ensures s'.list[i] in s.vref {
      var k := WithoutKeepsOrder(s.list, v, i);
    }
    forall u | u in s'.pcs ensures AgentOk(s', s'.pcs[u]) {
      if u != t {
        assert AgentOk(s, s.pcs[u]);
        if Walks(s.pcs[u]) { WalkSurvivesUnlink(s, s', v, s.pcs[u]); }
      }
    }
  }

  lemma {:induction false} WithoutStrict(l: seq<Id>, v: Id, i: nat, j: nat) returns (a: nat, b: nat)
    requires i < j < |Without(l, v)|
    ensures a < b < |l| && l[a] == Without(l, v)[i] && l[b] == Without(l, v)[j]
    decreases |l|
  {
    if l[0] == v {
      a, b := WithoutStrict(l[1..], v, i, j);
      a, b := a + 1, b + 1;
    } else if i == 0 {
      b := WithoutKeepsOrder(l[1..], v, j - 1);
      a, b := 0, b + 1;
    } else {
      a, b := WithoutStrict(l[1..], v, i - 1, j - 1);
      a, b := a + 1, b + 1;
    }
  }

  lemma WalkSurvivesUnlink(s: State, s': State, v: Id, pc: Pc)
    requires ListOk(s) && Walks(pc) && pc.v in s.list && pc.v != v && WalkOk(s, pc)
    requires s'.list == Without(s.list, v) && s'.vref.Keys == s.vref.Keys
    ensures pc.v in s'.list && WalkOk(s', pc)
  {
    WithoutMembers(s.list, v);
    forall i, j | 0 <= i < |s'.list| && 0 <= j < |s'.list| && s'.list[j] == pc.v
      ensures (i < j ==> s'.list[i] in pc.seen) && (i > j ==> s'.list[i] !in pc.seen)
    {
      if i < j {
        var a, b := WithoutStrict(s.list, v, i, j);
      } else if i > j {
        var b, a := WithoutStrict(s.list, v, j, i);
      }
    }
  }

  /** Every step of every agent keeps the invariant. */
  lemma StepKeepsInv(s: State, t: nat, a: Action)
    requires Inv(s) && Enabled(s, t, a)
    ensures Inv(Step(s, t, a))
  {
    match a
    case Create(v) => CreateSteps(s, t, v);
    case StartWalk => StartSteps(s, t);
    case Mark => WalkerSteps(s, t, a);
    case Release => WalkerSteps(s, t, a);
    case Retake => WalkerSteps(s, t, a);
    case Unmark => WalkerSteps(s, t, a);
    case Skip => WalkerSteps(s, t, a);
    case Next => NextSteps(s, t);
    case GetSp(v) => GetSteps(s, t, v);
    case TestFlag => TestSteps(s, t);
    case Bail => ReturnSteps(s, t, a);
    case RelSp => ReturnSteps(s, t, a);
    case LoseSp => LoseSteps(s, t);
    case SetFlag(v) => FlagSteps(s, t, v);
    case BeginWait(v) => DeleterSteps(s, t, a);
    case TakeLock => DeleterSteps(s, t, a);
    case Check => CheckSteps(s, t);
    case Unlink => UnlinkSteps(s, t);
    case DropLock => DeleterSteps(s, t, a);
  }

  // ---------- whole runs ----------

  ghost predicate StepsTo(s: State, t: nat, a: Action, s': State) { Enabled(s, t, a) && s' == Step(s, t, a) }

  // A run: the states passed through, and who did what in between.
  ghost predicate Path(ss: seq<State>, es: seq<(nat, Action)>) {
    |ss| == |es| + 1 && forall i {:trigger es[i]} | 0 <= i < |es| :: StepsTo(ss[i], es[i].0, es[i].1, ss[i + 1])
  }

  ghost predicate Run(ss: seq<State>, es: seq<(nat, Action)>) { Path(ss, es) && ss[0] == INIT }

  lemma {:induction false} PathKeepsInv(ss: seq<State>, es: seq<(nat, Action)>, i: nat)
    requires Path(ss, es) && Inv(ss[0]) && i < |ss|
    ensures Inv(ss[i])
  {
    if i > 0 {
      PathKeepsInv(ss, es, i - 1);
      assert StepsTo(ss[i - 1], es[i - 1].0, es[i - 1].1, ss[i]);
      StepKeepsInv(ss[i - 1], es[i - 1].0, es[i - 1].1);
    }
  }

  /** Every state of a run satisfies the invariant. */
  lemma RunKeepsInv(ss: seq<State>, es: seq<(nat, Action)>, i: nat)
    requires Run(ss, es) && i < |ss|
    ensures Inv(ss[i])
  {
    PathKeepsInv(ss, es, i);
  }

  lemma {:induction false} DrainedStays(ss: seq<State>, es: seq<(nat, Action)>, i: nat, j: nat)
    requires Path(ss, es) && i <= j < |ss|
    ensures ss[i].drained <= ss[j].drained
    decreases j - i
  {
    if i < j {
      assert StepsTo(ss[j - 1], es[j - 1].0, es[j - 1].1, ss[j]);
      DrainedStays(ss, es, i, j - 1);
    }
  }

  /**
   Walk safety.  In every state of every run, a port some walker stands at, works on without the
   lock, or is about to step on from, is on the list; so no walk resumes from a removed port.
   */
  lemma WalkersStandOnTheList(ss: seq<State>, es: seq<(nat, Action)>, i: nat, t: nat)
    requires Run(ss, es) && i < |ss|
    ensures Walks(PcOf(ss[i], t)) ==> PcOf(ss[i], t).v in ss[i].list
  {
    RunKeepsInv(ss, es, i);
    if t in ss[i].pcs { assert AgentOk(ss[i], ss[i].pcs[t]); }
  }

  /**
   Walk completeness.  Stepping on leads to a port this walk has not been at, and when there is none
   left every port then on the list has been visited, whatever was created or deleted meanwhile.
   */
  lemma WalksVisitEveryPortOnce(ss: seq<State>, es: seq<(nat, Action)>, i: nat, t: nat)
    requires Run(ss, es) && i < |ss| && PcOf(ss[i], t).Left?
    ensures var s, pc := ss[i], PcOf(ss[i], t);
            var pc' := PcOf(Step(s, t, Next), t);
            && Enabled(s, t, Next)
            && (pc'.At? ==> pc'.v in s.list && pc'.v !in pc.seen && pc'.seen == pc.seen)
            && (!pc'.At? ==> pc'.Ended? && forall k | 0 <= k < |s.list| :: s.list[k] in pc'.seen)
  {
    RunKeepsInv(ss, es, i);
    NextSeesAll(ss[i], t);
  }

  lemma NextSeesAll(s: State, t: nat)
    requires Inv(s) && PcOf(s, t).Left?
    ensures var pc, pc' := PcOf(s, t), PcOf(Step(s, t, Next), t);
            && Enabled(s, t, Next) && Step(s, t, Next).list == s.list
            && (pc'.At? ==> pc'.v in s.list && pc'.v !in pc.seen && pc'.seen == pc.seen)
            && (!pc'.At? ==> pc'.Ended? && forall k | 0 <= k < |s.list| :: s.list[k] in pc'.seen)
  {
    var pc := s.pcs[t];
    assert AgentOk(s, pc);
    var j := IndexIn(s.list, pc.v);
    assert s.list[j] == pc.v;
    if j + 1 < |s.list| {
      assert s.list[j + 1] !in pc.seen;
    } else {
      forall k | 0 <= k < |s.list| ensures s.list[k] in pc.seen {
        assert k < j ==> s.list[k] in pc.seen;
      }
    }
  }

  // Agent t starts a walk at step i, is walking from then on, and has reached its end in state j.
  ghost predicate WalkSpan(ss: seq<State>, es: seq<(nat, Action)>, i: nat, j: nat, t: nat) {
    && i < j < |ss| && |ss| == |es| + 1 && es[i] == (t, StartWalk) && PcOf(ss[j], t).Ended?
    && forall k {:trigger ss[k]} | i < k < j :: Walks(PcOf(ss[k], t))
  }

  ghost predicate StoodAt(ss: seq<State>, i: nat, j: nat, t: nat, v: Id) {
    exists k {:trigger ss[k]} :: i < k <= j && k < |ss| && PcOf(ss[k], t).At? && PcOf(ss[k], t).v == v
  }

  function SeenBy(pc: Pc): set<Id> {
    if Walks(pc) then pc.seen + {pc.v} else if pc.Ended? then pc.seen else {}
  }

  // A walk comes to a port only by standing at it with the lock held.
  lemma WalkStep(s: State, t: nat, u: nat, a: Action)
    requires Enabled(s, u, a) && Walks(PcOf(s, t))
    ensures var pc, pc' := PcOf(s, t), PcOf(Step(s, u, a), t);
            Walks(pc') || pc'.Ended? ==> SeenBy(pc') <= SeenBy(pc) + (if pc'.At? then {pc'.v} else {})
    ensures PcOf(Step(s, u, a), t).Ended? ==> u == t && a.Next? && PcOf(s, t).Left?
  {
  }

  lemma {:induction false} SeenWasStoodAt(ss: seq<State>, es: seq<(nat, Action)>, i: nat, k: nat, t: nat)
    requires Path(ss, es) && i < k < |ss| && es[i] == (t, StartWalk)
    requires forall m {:trigger ss[m]} | i < m < k :: Walks(PcOf(ss[m], t))
    requires Walks(PcOf(ss[k], t)) || PcOf(ss[k], t).Ended?
    ensures forall v | v in SeenBy(PcOf(ss[k], t)) :: StoodAt(ss, i, k, t, v)
  {
    assert StepsTo(ss[k - 1], es[k - 1].0, es[k - 1].1, ss[k]);
    var pc := PcOf(ss[k], t);
    if k - 1 > i {
      assert Walks(PcOf(ss[k - 1], t));
      SeenWasStoodAt(ss, es, i, k - 1, t);
      WalkStep(ss[k - 1], t, es[k - 1].0, es[k - 1].1);
      forall v | v in SeenBy(pc) ensures StoodAt(ss, i, k, t, v) {
        if v in SeenBy(PcOf(ss[k - 1], t)) { assert StoodAt(ss, i, k - 1, t, v); } else { assert ss[k] == ss[k]; }
      }
    } else {
      forall v | v in SeenBy(pc) ensures StoodAt(ss, i, k, t, v) { assert pc.At? && ss[k] == ss[k]; }
    }
  }

  /**
   A whole walk, from taking the lock to its end, with any steps of other agents in between: when it ends
   every port then on the list has been stood at with the lock held since the walk began.
   */
  lemma WalkFromStartToEnd(ss: seq<State>, es: seq<(nat, Action)>, i: nat, j: nat, t: nat)
    requires Run(ss, es) && WalkSpan(ss, es, i, j, t)
    ensures forall v | v in ss[j].list :: v in PcOf(ss[j], t).seen
    ensures forall v | v in PcOf(ss[j], t).seen :: StoodAt(ss, i, j, t, v)
  {
    assert j - 1 > i ==> Walks(PcOf(ss[j - 1], t));
    WalkMissesNone(ss, es, j, t);
    SeenWasStoodAt(ss, es, i, j, t);
  }

  lemma WalkMissesNone(ss: seq<State>, es: seq<(nat, Action)>, j: nat, t: nat)
    requires Run(ss, es) && 0 < j <= |es| && PcOf(ss[j], t).Ended?
    requires Walks(PcOf(ss[j - 1], t)) || es[j - 1] == (t, StartWalk)
    ensures forall v | v in ss[j].list :: v in PcOf(ss[j], t).seen
  {
    RunKeepsInv(ss, es, j - 1);
    EndSawAll(ss[j - 1], t, es[j - 1].0, es[j - 1].1, ss[j]);
  }

  lemma EndSawAll(s: State, t: nat, u: nat, a: Action, s': State)
    requires Inv(s) && StepsTo(s, u, a, s') && PcOf(s', t).Ended?
    requires Walks(PcOf(s, t)) || (u == t && a == StartWalk)
    ensures forall v | v in s'.list :: v in PcOf(s', t).seen
  {
    if Walks(PcOf(s, t)) {
      WalkStep(s, t, u, a);
      NextSeesAll(s, t);
    }
  }

  /**
   One turn of a walk: count the port, work on it without the lock, once or several times, and give the count
   back under the lock.  Of the shared state nothing has changed, and the walk has finished with the port.
   */
  lemma WalkTurn(s: State, t: nat, v: Id, seen: set<Id>)
    requires PcOf(s, t) == At(v, seen) && s.lock == Some(t) && v in s.vref
    ensures var s1 := Step(s, t, Mark);
            var s2 := Step(s1, t, Release);
            var s3 := Step(s2, t, Retake);
            var s4 := Step(s3, t, Unmark);
            && Enabled(s, t, Mark) && Enabled(s1, t, Release) && Enabled(s2, t, Retake) && Enabled(s3, t, Unmark)
            && s1.vref == s.vref[v := s.vref[v] + 1] && s2.lock == None && s3.lock == Some(t)
            && Enabled(s3, t, Release) && Step(s3, t, Release) == s2
            && s4 == s.(pcs := s.pcs[t := Left(v, seen + {v})]) && Enabled(s4, t, Next)
  {
    assert Down(Up(s.vref, v), v) == s.vref;
  }

  // ---------- taking and returning SRBs ----------

  lemma {:induction false} FlagStays(ss: seq<State>, es: seq<(nat, Action)>, i: nat, j: nat)
    requires Path(ss, es) && i <= j < |ss|
    ensures ss[i].flag <= ss[j].flag
    decreases j - i
  {
    if i < j {
      assert StepsTo(ss[j - 1], es[j - 1].0, es[j - 1].1, ss[j]);
      FlagStays(ss, es, i, j - 1);
    }
  }

  /**
   From the moment the flag of a port is set the set of agents holding an SRB of it only shrinks: who holds
   one later has held it then.  So once none does, none ever will.
   */
  lemma {:induction false} HoldersOnlyShrink(ss: seq<State>, es: seq<(nat, Action)>, i: nat, j: nat, v: Id, t: nat)
    requires Path(ss, es) && i <= j < |ss| && v in ss[i].flag
    ensures PcOf(ss[j], t) == Granted(v) ==> PcOf(ss[i], t) == Granted(v)
    decreases j - i
  {
    if i < j {
      assert StepsTo(ss[j - 1], es[j - 1].0, es[j - 1].1, ss[j]);
      FlagStays(ss, es, i, j - 1);
      HoldersOnlyShrink(ss, es, i, j - 1, v, t);
    }
  }

  /**
   Asking for an SRB and giving it back, or being refused, leaves everything but the agents as it was; it is
   refused exactly when the flag is set.
   */
  lemma GetAndReturn(s: State, t: nat, v: Id)
    requires Enabled(s, t, GetSp(v))
    ensures var s1 := Step(s, t, GetSp(v));
            var s2 := Step(s1, t, TestFlag);
            var back := if v in s.flag then Bail else RelSp;
            var s3 := Step(s2, t, back);
            && Enabled(s1, t, TestFlag) && Enabled(s2, t, back)
            && s1.vref == s2.vref == s.vref[v := s.vref[v] + 1]
            && (PcOf(s2, t) == Granted(v) <==> v !in s.flag)
            && s3 == s.(pcs := s.pcs[t := Idle])
  {
    assert Down(Up(s.vref, v), v) == s.vref;
  }

  lemma LostStep(s: State, t: nat, a: Action, s': State, v: Id)
    requires StepsTo(s, t, a, s') && v in s.vref && v in s.lost
    ensures v in s'.vref && v in s'.lost
    ensures s'.lost[v] == s.lost[v] + (if a.LoseSp? && PcOf(s, t) == Granted(v) then 1 else 0)
  {
  }

  lemma {:induction false} LostStays(ss: seq<State>, es: seq<(nat, Action)>, i: nat, j: nat, v: Id)
    requires Path(ss, es) && i <= j < |ss| && v in ss[i].vref && v in ss[i].lost
    ensures v in ss[j].vref && v in ss[j].lost && ss[j].lost[v] >= ss[i].lost[v]
    decreases j - i
  {
    if i < j {
      LostStays(ss, es, i, j - 1, v);
      LostStep(ss[j - 1], es[j - 1].0, es[j - 1].1, ss[j], v);
    }
  }

  /**
   An SRB freed without lowering the counter keeps its port for good: the counter stays above zero, and no
   deleter gets past its test.
   */
  lemma LostBlocksDeletion(ss: seq<State>, es: seq<(nat, Action)>, i: nat, j: nat, v: Id, t: nat)
    requires Run(ss, es) && i < j < |ss| && es[i] == (t, LoseSp) && PcOf(ss[i], t) == Granted(v)
    ensures Count(ss[j].vref, v) > 0
    ensures forall u | PcOf(ss[j], u) == Checking(v) :: PcOf(Step(ss[j], u, Check), u) == Waiting(v)
  {
    RunKeepsInv(ss, es, i);
    RunKeepsInv(ss, es, j);
    assert AgentOk(ss[i], ss[i].pcs[t]);
    assert v in ss[i].lost;
    LostStep(ss[i], t, LoseSp, ss[i + 1], v);
    LostStays(ss, es, i + 1, j, v);
    LostHoldsCounter(ss[j], v);
  }

  lemma LostHoldsCounter(s: State, v: Id)
    requires Inv(s) && v in s.vref && v in s.lost && s.lost[v] > 0
    ensures Count(s.vref, v) > 0
    ensures forall u | PcOf(s, u) == Checking(v) :: PcOf(Step(s, u, Check), u) == Waiting(v)
  {
  }

  // ---------- teardown ----------

  /** A deleter that sees references gives the lock back and goes on waiting; nothing else changes. */
  lemma BusyPortIsKept(s: State, t: nat, v: Id)
    requires PcOf(s, t) == Checking(v) && Count(s.vref, v) > 0
    ensures Step(s, t, Check) == s.(lock := None, pcs := s.pcs[t := Waiting(v)])
  {
  }

  /** A deleter that sees none takes its port, and no other, off the list, and leaves the lock free. */
  lemma DeletionRemovesItsPort(ss: seq<State>, es: seq<(nat, Action)>, i: nat, t: nat, v: Id)
    requires Run(ss, es) && i < |ss| && PcOf(ss[i], t) == Checking(v) && Count(ss[i].vref, v) == 0
    ensures var s1 := Step(ss[i], t, Check);
            var s2 := Step(s1, t, Unlink);
            var s3 := Step(s2, t, DropLock);
            && Enabled(ss[i], t, Check) && Enabled(s1, t, Unlink) && Enabled(s2, t, DropLock)
            && PcOf(s3, t) == Deleted(v) && s3.lock == None && s3.vref == ss[i].vref && s3.flag == ss[i].flag
            && (forall u :: u in s3.list <==> u in ss[i].list && u != v)
            && (forall u | u != t :: PcOf(s3, u) == PcOf(ss[i], u))
  {
    RunKeepsInv(ss, es, i);
    WithoutMembers(ss[i].list, v);
  }

  /**
   Teardown safety.  Once a flagged deleter has read a zero counter, no SRB of the port is held in
   any later state, and a get_sp under way on it can only be refused.
   */
  lemma DrainedPortsGrantNothing(ss: seq<State>, es: seq<(nat, Action)>, i: nat, j: nat, v: Id, t: nat)
    requires Run(ss, es) && i <= j < |ss| && v in ss[i].drained
    ensures PcOf(ss[j], t) != Granted(v)
    ensures PcOf(ss[j], t) == Busy(v) ==> PcOf(Step(ss[j], t, TestFlag), t) == Bailing(v)
  {
    RunKeepsInv(ss, es, j);
    DrainedStays(ss, es, i, j);
    if t in ss[j].pcs { assert AgentOk(ss[j], ss[j].pcs[t]); }
  }

  /**
   The counter of a drained port that has left the list counts only get_sp calls in transit, so the
   teardown's final test for zero passes exactly when there is none.
   */
  lemma CounterAfterDrain(ss: seq<State>, es: seq<(nat, Action)>, i: nat, v: Id)
    requires Run(ss, es) && i < |ss|
    requires v in ss[i].drained && v in ss[i].vref && v !in ss[i].list
    ensures ss[i].vref[v] == |Refs(ss[i].pcs, v)|
    ensures forall t | t in Refs(ss[i].pcs, v) :: ss[i].pcs[t] == Busy(v) || ss[i].pcs[t] == Bailing(v)
    ensures ss[i].vref[v] == 0 <==> forall t | t in ss[i].pcs :: ss[i].pcs[t] != Busy(v) && ss[i].pcs[t] != Bailing(v)
  {
    RunKeepsInv(ss, es, i);
    var s := ss[i];
    forall t | t in Refs(s.pcs, v) ensures s.pcs[t] == Busy(v) || s.pcs[t] == Bailing(v) {
      assert AgentOk(s, s.pcs[t]);
    }
    if forall t | t in s.pcs :: s.pcs[t] != Busy(v) && s.pcs[t] != Bailing(v) {
      assert Refs(s.pcs, v) == {};
    }
    forall t | t in s.pcs && (s.pcs[t] == Busy(v) || s.pcs[t] == Bailing(v)) ensures s.vref[v] > 0 {
      assert t in Refs(s.pcs, v);
    }
  }

  // ---------- what the flag is for ----------

  // Whatever happens from s on, no SRB of v is ever held.
  ghost predicate NeverGranted(s: State, v: Id) {
    forall ss: seq<State>, es, k, t {:trigger Path(ss, es), PcOf(ss[k], t)} |
      Path(ss, es) && ss[0] == s && 0 <= k < |ss| :: PcOf(ss[k], t) != Granted(v)
  }

  lemma {:induction false} SomeAgentIdle(pcs: map<nat, Pc>) returns (t: nat)
    ensures t !in pcs
  {
    t := Above(pcs.Keys);
  }

  lemma {:induction false} Above(ts: set<nat>) returns (b: nat)
    ensures forall t | t in ts :: t < b
    decreases |ts|
  {
    if ts == {} { return 0; }
    var t :| t in ts;
    var rest := Above(ts - {t});
    b := if t < rest then rest else t + 1;
    forall u | u in ts ensures u < b {
      if u != t { assert u in ts - {t}; }
    }
  }

  /** In any state, two steps of an idle agent obtain an SRB of a port whose flag is not set. */
  lemma UnflaggedGrants(s: State, v: Id) returns (ss: seq<State>, es: seq<(nat, Action)>, t: nat)
    requires v in s.vref && v !in s.flag
    ensures Path(ss, es) && ss[0] == s && |ss| == 3 && PcOf(ss[2], t) == Granted(v) && ss[2].list == s.list
  {
    t := SomeAgentIdle(s.pcs);
    var s1 := Step(s, t, GetSp(v));
    ss, es := [s, s1, Step(s1, t, TestFlag)], [(t, GetSp(v)), (t, TestFlag)];
    forall k | 0 <= k < 2 ensures StepsTo(ss[k], es[k].0, es[k].1, ss[k + 1]) {
      if k == 0 { assert StepsTo(s, t, GetSp(v), s1); } else { assert StepsTo(s1, t, TestFlag, ss[2]); }
    }
  }

  lemma DrainedNeverGranted(s: State, v: Id)
    requires Inv(s) && v in s.drained
    ensures NeverGranted(s, v)
  {
    forall ss: seq<State>, es, k, t | Path(ss, es) && ss[0] == s && 0 <= k < |ss| ensures PcOf(ss[k], t) != Granted(v) {
      PathKeepsInv(ss, es, k);
      DrainedStays(ss, es, 0, k);
      if t in ss[k].pcs { assert AgentOk(ss[k], ss[k].pcs[t]); }
    }
  }

  /** On the list or off it: a port whose flag is not set can always still be granted. */
  lemma UnflaggedIsGrantable(s: State, v: Id)
    requires v in s.vref && v !in s.flag
    ensures !NeverGranted(s, v)
  {
    var ss, es, u := UnflaggedGrants(s, v);
    assert Path(ss, es) && ss[0] == s && PcOf(ss[2], u) == Granted(v);
  }

  /**
   Teardown, exactly.  Whenever a deleter reads a zero counter under the lock, in any state of any run, the
   port's SRBs are gone for good if and only if the flag is set by then.
   */
  lemma TeardownSafeIffFlagged(ss: seq<State>, es: seq<(nat, Action)>, i: nat, t: nat, v: Id)
    requires Run(ss, es) && i < |ss| && PcOf(ss[i], t) == Checking(v) && Count(ss[i].vref, v) == 0
    ensures Enabled(ss[i], t, Check) && PcOf(Step(ss[i], t, Check), t) == Removing(v)
    ensures NeverGranted(Step(ss[i], t, Check), v) <==> v in ss[i].flag
  {
    RunKeepsInv(ss, es, i);
    var s := Step(ss[i], t, Check);
    StepKeepsInv(ss[i], t, Check);
    if v in ss[i].flag {
      DrainedNeverGranted(s, v);
    } else {
      assert AgentOk(ss[i], ss[i].pcs[t]);
      UnflaggedIsGrantable(s, v);
    }
  }

  // Port 7 before and after its deletion by agent 1, with or without the flag.
  function Fresh(flag: set<Id>): State { State([7], map[7 := 0], flag, None, map[], {}, map[7 := 0]) }

  function Deleting(list: seq<Id>, flag: set<Id>, lock: Option<nat>, pc: Pc, drained: set<Id>): State {
    State(list, map[7 := 0], flag, lock, map[1 := pc], drained, map[7 := 0])
  }

  function Gone(flag: set<Id>): State { Deleting([], flag, None, Deleted(7), if 7 in flag then {7} else {}) }

  ghost predicate PathTo(s: State, es: seq<(nat, Action)>, z: State) {
    exists ss :: Path(ss, es) && ss[0] == s && ss[|es|] == z
  }

  lemma Then(s: State, es: seq<(nat, Action)>, y: State, t: nat, a: Action, z: State)
    requires PathTo(s, es, y) && StepsTo(y, t, a, z)
    ensures PathTo(s, es + [(t, a)], z)
  {
    var ss :| Path(ss, es) && ss[0] == s && ss[|es|] == y;
    assert Path(ss + [z], es + [(t, a)]);
  }

  lemma Nothing(s: State)
    ensures PathTo(s, [], s)
  {
    assert Path([s], []);
  }

  lemma DeletionPath(s: State, es: seq<(nat, Action)>, flag: set<Id>)
    requires PathTo(s, es, Fresh(flag))
    ensures PathTo(s, es + [(1, BeginWait(7))] + [(1, TakeLock)] + [(1, Check)] + [(1, Unlink)] + [(1, DropLock)],
                   Gone(flag))
  {
    var d := if 7 in flag then {7} else {};
    var es1 := es + [(1, BeginWait(7))];
    var es2 := es1 + [(1, TakeLock)];
    Then(s, es, Fresh(flag), 1, BeginWait(7), Deleting([7], flag, None, Waiting(7), {}));
    Then(s, es1, Deleting([7], flag, None, Waiting(7), {}), 1, TakeLock, Deleting([7], flag, Some(1), Checking(7), {}));
    DeletionEnds(s, es2, flag, d);
  }

  lemma DeletionEnds(s: State, es: seq<(nat, Action)>, flag: set<Id>, d: set<Id>)
    requires PathTo(s, es, Deleting([7], flag, Some(1), Checking(7), {})) && d == if 7 in flag then {7} else {}
    ensures PathTo(s, es + [(1, Check)] + [(1, Unlink)] + [(1, DropLock)], Gone(flag))
  {
    var checked, unlinked := Deleting([7], flag, Some(1), Removing(7), d), Deleting([], flag, Some(1), Unlinked(7), d);
    Then(s, es, Deleting([7], flag, Some(1), Checking(7), {}), 1, Check, checked);
    UnlinkStep(flag, d);
    Then(s, es + [(1, Check)], checked, 1, Unlink, unlinked);
    Then(s, es + [(1, Check)] + [(1, Unlink)], unlinked, 1, DropLock, Gone(flag));
  }

  lemma UnlinkStep(flag: set<Id>, d: set<Id>)
    requires d == if 7 in flag then {7} else {}
    ensures StepsTo(Deleting([7], flag, Some(1), Removing(7), d), 1, Unlink,
                    Deleting([], flag, Some(1), Unlinked(7), d))
    ensures StepsTo(Deleting([], flag, Some(1), Unlinked(7), d), 1, DropLock, Gone(flag))
  {
    assert Without([7], 7) == [];
  }

  // The deletion complete, and agent 2 at pc holding one reference.
  function Late(flag: set<Id>, pc: Pc): State { Gone(flag).(vref := map[7 := 1], pcs := map[1 := Deleted(7), 2 := pc]) }

  /** The failed-create path waits without setting the flag; an SRB can still be granted afterwards. */
  lemma UnflaggedTeardownCanGrant()
    ensures PathTo(INIT,
                   [] + [(1, Create(7))] + [(1, BeginWait(7))] + [(1, TakeLock)] + [(1, Check)] + [(1, Unlink)]
                   + [(1, DropLock)] + [(2, GetSp(7))] + [(2, TestFlag)],
                   Late({}, Granted(7)))
    ensures var z := Late({}, Granted(7)); PcOf(z, 1) == Deleted(7) && PcOf(z, 2) == Granted(7) && 7 !in z.list
  {
    Nothing(INIT);
    Then(INIT, [], INIT, 1, Create(7), Fresh({}));
    DeletionPath(INIT, [] + [(1, Create(7))], {});
    LateGrant([] + [(1, Create(7))] + [(1, BeginWait(7))] + [(1, TakeLock)] + [(1, Check)] + [(1, Unlink)]
              + [(1, DropLock)]);
  }

  lemma LateGrant(es: seq<(nat, Action)>)
    requires PathTo(INIT, es, Gone({}))
    ensures PathTo(INIT, es + [(2, GetSp(7))] + [(2, TestFlag)], Late({}, Granted(7)))
  {
    Then(INIT, es, Gone({}), 2, GetSp(7), Late({}, Busy(7)));
    Then(INIT, es + [(2, GetSp(7))], Late({}, Busy(7)), 2, TestFlag, Late({}, Granted(7)));
  }

  lemma FlaggedPort()
    ensures PathTo(INIT, [] + [(1, Create(7))] + [(1, SetFlag(7))], Fresh({7}))
  {
    Nothing(INIT);
    Then(INIT, [], INIT, 1, Create(7), Fresh({}));
    Then(INIT, [] + [(1, Create(7))], Fresh({}), 1, SetFlag(7), Fresh({7}));
  }

  /** With the flag set the final counter test can still see a get_sp in transit. */
  lemma FlaggedCounterCanBeNonzero()
    ensures PathTo(INIT,
                   [] + [(1, Create(7))] + [(1, SetFlag(7))] + [(1, BeginWait(7))] + [(1, TakeLock)] + [(1, Check)]
                   + [(1, Unlink)] + [(1, DropLock)] + [(2, GetSp(7))],
                   Late({7}, Busy(7)))
    ensures var z := Late({7}, Busy(7)); PcOf(z, 1) == Deleted(7) && 7 in z.drained && Count(z.vref, 7) == 1
  {
    FlaggedPort();
    DeletionPath(INIT, [] + [(1, Create(7))] + [(1, SetFlag(7))], {7});
    Then(INIT, [] + [(1, Create(7))] + [(1, SetFlag(7))] + [(1, BeginWait(7))] + [(1, TakeLock)] + [(1, Check)]
               + [(1, Unlink)] + [(1, DropLock)], Gone({7}), 2, GetSp(7), Late({7}, Busy(7)));
  }
}
