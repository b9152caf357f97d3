/** The shared pool of spinlocks, as atomic steps of any number of processes.

    A process is a program counter plus what the caller legitimately knows: the locks it holds
    (its last acquire returned 0 and it has not released) and the handles it owns (created and not
    destroyed).  One action performs at most one access to shared memory, so every interleaving of
    the C code with a sequentially consistent test-and-set is an action sequence here.  Two actions
    make a pair of accesses that no other process can come between in effect: the scan finds a free
    slot and marks it, and stress_lock_put checks two magics (see MagicIsStable). */
module LockPool {
  import opened Wrappers

  const STRESS_PROCS_MAX: nat := 8192
  const STRESS_LOCK_MAX: nat := STRESS_PROCS_MAX * 2
  const MAGIC := 0x387cb9e5
  const MAGIC_FREE := 0
  const MAX_SPINS: nat := 1000

  datatype Slot = Slot(magic: int, flag: bool)

  /** The public operations that take a handle. */
  datatype Op = Acquire | AcquireRelax | Release | Destroy

  /** What a process does once its test-and-set succeeds. */
  datatype Goal = ToScan | ToClear(slot: nat) | ToHold

  datatype PC =
    | Idle
    | Checking(op: Op, slot: nat)                                  // public entry: magic of the handle
    | PutChecking(slot: nat)                                       // stress_lock_put: magic again
    | Spinning(target: nat, goal: Goal, spins: nat, relaxed: bool) // test-and-set loop
    | Scanning(next: nat)                                          // stress_lock_get loop, big lock held
    | GetDone(found: Option<nat>)                                  // about to release the big lock
    | Initing(slot: nat)                                           // stress_lock_create: clear the flag
    | Clearing(slot: nat)                                          // memset of the slot: the magic ...
    | ClearingFlag(slot: nat)                                      // ... and then the flag
    | PutDone                                                      // about to release the big lock
    | Storing(slot: nat)                                           // release: about to store false

  datatype Process = Process(pc: PC, held: set<nat>, owned: set<nat>)

  datatype State = State(slots: seq<Slot>, procs: seq<Process>)

  /** Begin... start a call, Advance runs the next atomic step of it, GiveUp is a test-and-set that
      fails after the time limit. */
  datatype Action = BeginCreate | Begin(op: Op, slot: nat) | Advance | GiveUp

  // ---------- the client's obligations ----------

  ghost predicate Live(s: State, i: nat) {
    exists p :: 0 <= p < |s.procs| && i in s.procs[p].owned
  }

  /** The process is inside an acquire or release of lock i. */
  predicate Uses(pc: PC, i: nat) {
    || (pc.Checking? && !pc.op.Destroy? && pc.slot == i)
    || (pc.Spinning? && pc.goal.ToHold? && pc.target == i)
    || (pc.Storing? && pc.slot == i)
  }

  ghost predicate Held(s: State, i: nat) {
    exists p :: 0 <= p < |s.procs| && i in s.procs[p].held
  }

  ghost predicate Quiet(s: State, i: nat) {
    forall p :: 0 <= p < |s.procs| ==> i !in s.procs[p].held && !Uses(s.procs[p].pc, i)
  }

  // ---------- the steps ----------

  function Flag(s: State, i: nat, flag: bool): seq<Slot>
    requires i < |s.slots|
  {
    s.slots[i := s.slots[i].(flag := flag)]
  }

  function Magic(s: State, i: nat, magic: int): seq<Slot>
    requires i < |s.slots|
  {
    s.slots[i := s.slots[i].(magic := magic)]
  }

  /** The slot a process reads or writes next. */
  function Touches(pc: PC): nat {
    match pc
    case Checking(_, i) => i
    case PutChecking(i) => i
    case Spinning(i, _, _, _) => i
    case Scanning(i) => if i < STRESS_LOCK_MAX then i else 0
    case Initing(i) => i
    case Clearing(i) => i
    case ClearingFlag(i) => i
    case Storing(i) => i
    case _ => 0
  }

  /** Process p is at a point of the code where action a is its next step. */
  predicate Possible(s: State, p: nat, a: Action) {
    && p < |s.procs|
    && |s.slots| == STRESS_LOCK_MAX
    && var pc := s.procs[p].pc;
    && Touches(pc) < STRESS_LOCK_MAX
    && match a
       case BeginCreate => pc.Idle?
       case Begin(_, _) => pc.Idle?
       case Advance => !pc.Idle?
       case GiveUp => pc.Spinning? && s.slots[pc.target].flag
  }

  /** The callers' obligations.  Only a holder releases and only the owner destroys.  A lock may be
      destroyed when nobody holds it and, if strict, nobody is still on the way to acquiring it. */
  ghost predicate Allowed(s: State, p: nat, a: Action, strict: bool)
    requires p < |s.procs|
  {
    a.Begin? ==>
      match a.op
      case Release => a.slot in s.procs[p].held
      case Destroy => a.slot in s.procs[p].owned && if strict then Quiet(s, a.slot) else !Held(s, a.slot)
      case _ => Live(s, a.slot)
  }

  ghost predicate Enabled(s: State, p: nat, a: Action) {
    Possible(s, p, a) && Allowed(s, p, a, true)
  }

  function SetPC(s: State, p: nat, pc: PC): State
    requires p < |s.procs|
  {
    s.(procs := s.procs[p := s.procs[p].(pc := pc)])
  }

  function StartSpin(target: nat, goal: Goal, relaxed: bool): PC {
    Spinning(target, goal, 0, relaxed)
  }

  /** The state after process p performs action a. */
  function Apply(s: State, p: nat, a: Action): State
    requires Possible(s, p, a)
  {
    var me := s.procs[p];
    match a
    case BeginCreate =>
      if s.slots[0].magic == MAGIC then SetPC(s, p, StartSpin(0, ToScan, false)) else s
    case Begin(op, i) =>
      var owned := if op.Destroy? then me.owned - {i} else me.owned;
      s.(procs := s.procs[p := me.(pc := Checking(op, i), owned := owned)])
    case GiveUp => Fail(s, p)
    case Advance =>
      match me.pc
      case Checking(op, i) =>
        if s.slots[i].magic != MAGIC then Fail(s, p)
        else (match op
              case Acquire => SetPC(s, p, StartSpin(i, ToHold, false))
              case AcquireRelax => SetPC(s, p, StartSpin(i, ToHold, true))
              case Release => SetPC(s, p, Storing(i))
              case Destroy => SetPC(s, p, PutChecking(i)))
      case PutChecking(i) =>
        if s.slots[i].magic != MAGIC || s.slots[0].magic != MAGIC then Fail(s, p)
        else SetPC(s, p, StartSpin(0, ToClear(i), false))
      case Spinning(i, goal, spins, relaxed) =>
        if s.slots[i].flag then
          SetPC(s, p, if relaxed || spins > MAX_SPINS then Spinning(i, goal, 0, true)
                      else Spinning(i, goal, spins + 1, false))
        else
          var s1 := s.(slots := Flag(s, i, true));
          (match goal
           case ToScan => SetPC(s1, p, Scanning(0))
           case ToClear(j) => SetPC(s1, p, Clearing(j))
           case ToHold => s1.(procs := s.procs[p := me.(pc := Idle, held := me.held + {i})]))
      case Scanning(i) =>
        if i >= STRESS_LOCK_MAX then SetPC(s, p, GetDone(None))
        else if s.slots[i].magic == MAGIC_FREE then
          SetPC(s.(slots := Magic(s, i, MAGIC)), p, GetDone(Some(i)))
        else SetPC(s, p, Scanning(i + 1))
      case GetDone(found) =>
        SetPC(s.(slots := Flag(s, 0, false)), p, if found.Some? then Initing(found.value) else Idle)
      case Initing(i) =>
        State(Flag(s, i, false), s.procs[p := me.(pc := Idle, owned := me.owned + {i})])
      case Clearing(i) => SetPC(s.(slots := Magic(s, i, MAGIC_FREE)), p, ClearingFlag(i))
      case ClearingFlag(i) => SetPC(s.(slots := Flag(s, i, false)), p, PutDone)
      case PutDone => SetPC(s.(slots := Flag(s, 0, false)), p, Idle)
      case Storing(i) =>
        State(Flag(s, i, false), s.procs[p := me.(pc := Idle, held := me.held - {i})])
      case Idle => s
  }

  /** The call returns an error: the process is idle again, and a handle whose destruction failed is
      still the caller's. */
  function Fail(s: State, p: nat): State
    requires p < |s.procs|
  {
    var me := s.procs[p];
    var back := if Destroying(me.pc) then {DestroyTarget(me.pc)} else {};
    s.(procs := s.procs[p := me.(pc := Idle, owned := me.owned + back)])
  }

  predicate Destroying(pc: PC) {
    || (pc.Checking? && pc.op.Destroy?)
    || pc.PutChecking?
    || (pc.Spinning? && pc.goal.ToClear?)
  }

  function DestroyTarget(pc: PC): nat
    requires Destroying(pc)
  {
    if pc.Checking? then pc.slot else if pc.PutChecking? then pc.slot else pc.goal.slot
  }

  // ---------- runs ----------

  /** The mapping after stress_lock_mem_map, seen by n idle processes. */
  function Initial(n: nat): State {
    State(seq(STRESS_LOCK_MAX, i => if i == 0 then Slot(MAGIC, false) else Slot(MAGIC_FREE, false)),
          seq(n, i => Process(Idle, {}, {})))
  }

  datatype Event = Event(p: nat, a: Action)

  ghost predicate IsRun(s: State, run: seq<Event>, strict: bool)
    decreases |run|
  {
    run == [] ||
    (&& Possible(s, run[0].p, run[0].a)
     && Allowed(s, run[0].p, run[0].a, strict)
     && IsRun(Apply(s, run[0].p, run[0].a), run[1..], strict))
  }

  ghost function After(s: State, run: seq<Event>): State
    requires IsRun(s, run, false)
    decreases |run|
  {
    if run == [] then s else After(Apply(s, run[0].p, run[0].a), run[1..])
  }

  // ---------- the invariant ----------

  /** The process is between a successful test-and-set of the big lock and its release. */
  predicate InBig(pc: PC) {
    pc.Scanning? || pc.GetDone? || pc.Clearing? || pc.ClearingFlag? || pc.PutDone?
  }

  /** The slot number a process carries in its program counter while creating or destroying. */
  function Carried(pc: PC): Option<nat> {
    if Destroying(pc) then Some(DestroyTarget(pc))
    else match pc
         case GetDone(found) => found
         case Initing(i) => Some(i)
         case Clearing(i) => Some(i)
         case _ => None
  }

  /** The slots a process is responsible for. */
  predicate Claims(m: Process, i: nat) {
    i in m.owned || Carried(m.pc) == Some(i)
  }

  predicate PCInRange(pc: PC) {
    && Touches(pc) < STRESS_LOCK_MAX
    && (pc.Scanning? ==> pc.next <= STRESS_LOCK_MAX)
    && (pc.Spinning? && !pc.goal.ToHold? ==> pc.target == 0)
    && (Carried(pc).Some? ==> 0 < Carried(pc).value < STRESS_LOCK_MAX)
    && (pc.ClearingFlag? ==> 0 < pc.slot < STRESS_LOCK_MAX)
    && (pc.Spinning? ==> pc.spins <= MAX_SPINS + 1)
  }

  /** Everything a process refers to is a lock it may refer to. */
  ghost predicate RefsOK(s: State, p: nat)
    requires p < |s.procs|
  {
    var me := s.procs[p];
    && PCInRange(me.pc)
    && (forall i :: i in me.owned ==> 0 < i < STRESS_LOCK_MAX)
    && (forall i :: i in me.held || Uses(me.pc, i) ==> Live(s, i))
    && (me.pc.Storing? ==> me.pc.slot in me.held)
    && (me.pc.Checking? && me.pc.op.Release? ==> me.pc.slot in me.held)
    && (Carried(me.pc).Some? ==> Carried(me.pc).value !in me.owned)
  }

  ghost predicate TakenBelow(s: State, n: nat) {
    forall j :: 0 <= j < n && j < |s.slots| ==> s.slots[j].magic == MAGIC
  }

  /** What a process has established on the way. */
  ghost predicate PhaseOK(s: State, p: nat)
    requires p < |s.procs| && PCInRange(s.procs[p].pc) && |s.slots| == STRESS_LOCK_MAX
  {
    var pc := s.procs[p].pc;
    && (pc.Scanning? ==> TakenBelow(s, pc.next))
    && (pc.GetDone? ==> TakenBelow(s, if pc.found.Some? then pc.found.value else STRESS_LOCK_MAX))
    && (pc.ClearingFlag? ==> s.slots[pc.slot].magic == MAGIC_FREE)
    && (Destroying(pc) ==> !s.slots[DestroyTarget(pc)].flag)
  }

  ghost predicate ProcessOK(s: State, p: nat)
    requires p < |s.procs| && |s.slots| == STRESS_LOCK_MAX
  {
    RefsOK(s, p) && PhaseOK(s, p)
  }

  ghost predicate Claimed(s: State, i: nat) {
    exists p :: 0 <= p < |s.procs| && Claims(s.procs[p], i)
  }

  ghost predicate BigHeld(s: State) {
    exists p :: 0 <= p < |s.procs| && InBig(s.procs[p].pc)
  }

  ghost predicate SlotOK(s: State, i: nat)
    requires i < |s.slots|
  {
    && (s.slots[i].magic == MAGIC || s.slots[i].magic == MAGIC_FREE)
    && (i == 0 ==> s.slots[i].magic == MAGIC && s.slots[i].flag == BigHeld(s))
    && (i != 0 ==> (s.slots[i].magic == MAGIC) == Claimed(s, i))
    && (Live(s, i) ==> s.slots[i].flag == Held(s, i))
  }

  ghost predicate Exclusive(s: State, p: nat, q: nat)
    requires p < |s.procs| && q < |s.procs|
  {
    && !(InBig(s.procs[p].pc) && InBig(s.procs[q].pc))
    && (forall i :: !(Claims(s.procs[p], i) && Claims(s.procs[q], i)))
    && s.procs[p].held !! s.procs[q].held
  }

  ghost predicate Inv(s: State) {
    && |s.slots| == STRESS_LOCK_MAX
    && (forall p :: 0 <= p < |s.procs| ==> ProcessOK(s, p))
    && (forall i :: 0 <= i < STRESS_LOCK_MAX ==> SlotOK(s, i))
    && (forall p, q :: 0 <= p < |s.procs| && 0 <= q < |s.procs| && p != q ==> Exclusive(s, p, q))
  }

  lemma InitialInv(n: nat)
    ensures Inv(Initial(n))
    ensures |Initial(n).slots| == 16384 && Initial(n).slots[0] == Slot(0x387cb9e5, false)
    ensures forall i :: 0 < i < 16384 ==> Initial(n).slots[i] == Slot(0, false)
  {
  }

  /** What one step may change: only the acting process, and only the slot it touches. */
  lemma StepFrame(s: State, p: nat, a: Action)
    requires Inv(s) && Enabled(s, p, a)
    ensures var t := Apply(s, p, a);
            && |t.procs| == |s.procs| && |t.slots| == |s.slots|
            && (forall q :: 0 <= q < |s.procs| && q != p ==> t.procs[q] == s.procs[q])
            && (forall i :: 0 <= i < |s.slots| && i != Touches(s.procs[p].pc) ==> t.slots[i] == s.slots[i])
  {
  }

  /** Some process other than p owns, holds or claims slot i, or is inside the big lock. */
  ghost predicate OwnedElsewhere(s: State, p: nat, i: nat) {
    exists q :: 0 <= q < |s.procs| && q != p && i in s.procs[q].owned
  }

  ghost predicate HeldElsewhere(s: State, p: nat, i: nat) {
    exists q :: 0 <= q < |s.procs| && q != p && i in s.procs[q].held
  }

  ghost predicate ClaimedElsewhere(s: State, p: nat, i: nat) {
    exists q :: 0 <= q < |s.procs| && q != p && Claims(s.procs[q], i)
  }

  ghost predicate InBigElsewhere(s: State, p: nat) {
    exists q :: 0 <= q < |s.procs| && q != p && InBig(s.procs[q].pc)
  }

  /** Every existential of the invariant is p's own part or the part of the others. */
  lemma SplitAt(s: State, p: nat, i: nat)
    requires p < |s.procs|
    ensures Live(s, i) == (i in s.procs[p].owned || OwnedElsewhere(s, p, i))
    ensures Held(s, i) == (i in s.procs[p].held || HeldElsewhere(s, p, i))
    ensures Claimed(s, i) == (Claims(s.procs[p], i) || ClaimedElsewhere(s, p, i))
    ensures BigHeld(s) == (InBig(s.procs[p].pc) || InBigElsewhere(s, p))
  {
  }

  /** The part of the others is the same in states that differ only in process p. */
  lemma SameElsewhere(s: State, t: State, p: nat, i: nat)
    requires p < |s.procs| == |t.procs|
    requires forall q :: 0 <= q < |s.procs| && q != p ==> t.procs[q] == s.procs[q]
    ensures OwnedElsewhere(t, p, i) == OwnedElsewhere(s, p, i)
    ensures HeldElsewhere(t, p, i) == HeldElsewhere(s, p, i)
    ensures ClaimedElsewhere(t, p, i) == ClaimedElsewhere(s, p, i)
    ensures InBigElsewhere(t, p) == InBigElsewhere(s, p)
  {
  }

  /** Under the invariant p's part and the part of the others exclude each other. */
  lemma NotBoth(s: State, p: nat, i: nat)
    requires Inv(s) && p < |s.procs|
    ensures Claims(s.procs[p], i) ==> !ClaimedElsewhere(s, p, i)
    ensures i in s.procs[p].held ==> !HeldElsewhere(s, p, i)
    ensures InBig(s.procs[p].pc) ==> !InBigElsewhere(s, p)
    ensures OwnedElsewhere(s, p, i) ==> ClaimedElsewhere(s, p, i)
    ensures Held(s, i) ==> Live(s, i)
  {
    if ClaimedElsewhere(s, p, i) {
      var q :| 0 <= q < |s.procs| && q != p && Claims(s.procs[q], i);
      assert Exclusive(s, p, q);
    }
    if HeldElsewhere(s, p, i) {
      var q :| 0 <= q < |s.procs| && q != p && i in s.procs[q].held;
      assert Exclusive(s, p, q);
    }
    if InBigElsewhere(s, p) {
      var q :| 0 <= q < |s.procs| && q != p && InBig(s.procs[q].pc);
      assert Exclusive(s, p, q);
    }
    if OwnedElsewhere(s, p, i) {
      var q :| 0 <= q < |s.procs| && q != p && i in s.procs[q].owned;
      assert Claims(s.procs[q], i);
    }
    if Held(s, i) {
      var q :| 0 <= q < |s.procs| && i in s.procs[q].held;
      assert ProcessOK(s, q);
    }
  }

  /** All three for the two ends of a step. */
  lemma StepParts(s: State, p: nat, a: Action, i: nat)
    requires Inv(s) && Enabled(s, p, a)
    ensures var t := Apply(s, p, a); var me, you := s.procs[p], Apply(s, p, a).procs[p];
            && |t.procs| == |s.procs|
            && Live(s, i) == (i in me.owned || OwnedElsewhere(s, p, i))
            && Live(t, i) == (i in you.owned || OwnedElsewhere(s, p, i))
            && Held(s, i) == (i in me.held || HeldElsewhere(s, p, i))
            && Held(t, i) == (i in you.held || HeldElsewhere(s, p, i))
            && Claimed(s, i) == (Claims(me, i) || ClaimedElsewhere(s, p, i))
            && Claimed(t, i) == (Claims(you, i) || ClaimedElsewhere(s, p, i))
            && BigHeld(s) == (InBig(me.pc) || InBigElsewhere(s, p))
            && BigHeld(t) == (InBig(you.pc) || InBigElsewhere(s, p))
            && (Claims(me, i) ==> !ClaimedElsewhere(s, p, i))
            && (i in me.held ==> !HeldElsewhere(s, p, i))
            && (InBig(me.pc) ==> !InBigElsewhere(s, p))
            && (OwnedElsewhere(s, p, i) ==> ClaimedElsewhere(s, p, i))
            && (Held(s, i) ==> Live(s, i))
  {
    var t := Apply(s, p, a);
    StepFrame(s, p, a);
    SplitAt(s, p, i);
    SplitAt(t, p, i);
    SameElsewhere(s, t, p, i);
    NotBoth(s, p, i);
  }

  /** The magic of a slot still says whether a process is responsible for it ... */
  lemma StepMagic(s: State, p: nat, a: Action, i: nat)
    requires Inv(s) && Enabled(s, p, a) && i < STRESS_LOCK_MAX
    ensures var t := Apply(s, p, a);
            && |t.slots| == STRESS_LOCK_MAX
            && (t.slots[i].magic == MAGIC || t.slots[i].magic == MAGIC_FREE)
            && (t.slots[i].magic == MAGIC) == (i == 0 || Claimed(t, i))
  {
    hide Claimed, Live, Held, BigHeld, OwnedElsewhere, HeldElsewhere, ClaimedElsewhere, InBigElsewhere;
    StepParts(s, p, a, i);
    assert SlotOK(s, i) && ProcessOK(s, p);
  }

  /** ... the flag of slot 0 whether one is inside the big lock ... */
  lemma StepBigFlag(s: State, p: nat, a: Action)
    requires Inv(s) && Enabled(s, p, a)
    ensures |Apply(s, p, a).slots| == STRESS_LOCK_MAX
    ensures Apply(s, p, a).slots[0].flag == BigHeld(Apply(s, p, a))
  {
    hide Claimed, Live, Held, BigHeld, OwnedElsewhere, HeldElsewhere, ClaimedElsewhere, InBigElsewhere;
    StepParts(s, p, a, 0);
    assert SlotOK(s, 0) && ProcessOK(s, p);
    LiveIsLock(s, 0);
  }

  /** ... and the flag of a live slot whether somebody holds that lock. */
  lemma StepLockFlag(s: State, p: nat, a: Action, i: nat)
    requires Inv(s) && Enabled(s, p, a) && i < STRESS_LOCK_MAX && Live(Apply(s, p, a), i)
    ensures |Apply(s, p, a).slots| == STRESS_LOCK_MAX
    ensures Apply(s, p, a).slots[i].flag == Held(Apply(s, p, a), i)
  {
    hide Claimed, Live, Held, BigHeld, OwnedElsewhere, HeldElsewhere, ClaimedElsewhere, InBigElsewhere;
    StepParts(s, p, a, i);
    assert SlotOK(s, i) && ProcessOK(s, p);
    LiveIsLock(s, 0);
  }

  lemma LiveIsLock(s: State, i: nat)
    requires Inv(s)
    ensures Live(s, i) ==> 0 < i < STRESS_LOCK_MAX
    ensures Held(s, i) ==> Live(s, i)
    ensures forall p :: 0 <= p < |s.procs| && Uses(s.procs[p].pc, i) ==> Live(s, i)
  {
    forall p | 0 <= p < |s.procs|
      ensures i in s.procs[p].owned ==> 0 < i < STRESS_LOCK_MAX
      ensures i in s.procs[p].held || Uses(s.procs[p].pc, i) ==> Live(s, i)
    {
      assert ProcessOK(s, p);
    }
  }

  /** A slot under destruction is nobody's live lock. */
  lemma DyingIsNotLive(s: State, p: nat)
    requires Inv(s) && p < |s.procs| && Destroying(s.procs[p].pc)
    ensures !Live(s, DestroyTarget(s.procs[p].pc))
  {
    var i := DestroyTarget(s.procs[p].pc);
    assert ProcessOK(s, p);
    NotBoth(s, p, i);
    SplitAt(s, p, i);
  }

  /** A process that gains a lock, a slot or the big lock gains what nobody else has. */
  lemma GainedSlotIsFree(s: State, p: nat, a: Action, i: nat)
    requires Inv(s) && Enabled(s, p, a)
    ensures |Apply(s, p, a).procs| == |s.procs|
    ensures Claims(Apply(s, p, a).procs[p], i) ==> !ClaimedElsewhere(s, p, i)
  {
    hide Claimed, Live, Held, BigHeld, OwnedElsewhere, HeldElsewhere, ClaimedElsewhere, InBigElsewhere;
    StepParts(s, p, a, i);
    assert ProcessOK(s, p);
    assert SlotOK(s, 0);
    if i < STRESS_LOCK_MAX { assert SlotOK(s, i); }
  }

  lemma GainedLockIsFree(s: State, p: nat, a: Action, i: nat)
    requires Inv(s) && Enabled(s, p, a)
    ensures |Apply(s, p, a).procs| == |s.procs|
    ensures i in Apply(s, p, a).procs[p].held ==> !HeldElsewhere(s, p, i)
  {
    hide Claimed, Live, Held, BigHeld, OwnedElsewhere, HeldElsewhere, ClaimedElsewhere, InBigElsewhere;
    StepParts(s, p, a, i);
    assert ProcessOK(s, p);
    if i < STRESS_LOCK_MAX { assert SlotOK(s, i); }
  }

  lemma GainedBigLockIsFree(s: State, p: nat, a: Action)
    requires Inv(s) && Enabled(s, p, a)
    ensures |Apply(s, p, a).procs| == |s.procs|
    ensures InBig(Apply(s, p, a).procs[p].pc) ==> !InBigElsewhere(s, p)
  {
    hide Claimed, Live, Held, BigHeld, OwnedElsewhere, HeldElsewhere, ClaimedElsewhere, InBigElsewhere;
    StepParts(s, p, a, 0);
    assert ProcessOK(s, p);
    assert SlotOK(s, 0);
  }

  lemma StepExclusive(s: State, p: nat, a: Action, q: nat)
    requires Inv(s) && Enabled(s, p, a) && q < |s.procs| && q != p
    ensures |Apply(s, p, a).procs| == |s.procs|
    ensures Exclusive(Apply(s, p, a), p, q)
  {
    var t := Apply(s, p, a);
    StepFrame(s, p, a);
    GainedBigLockIsFree(s, p, a);
    forall i ensures !(Claims(t.procs[p], i) && Claims(t.procs[q], i)) {
      if i >= 0 { GainedSlotIsFree(s, p, a, i); }
    }
    forall i | i in t.procs[p].held ensures i !in t.procs[q].held { GainedLockIsFree(s, p, a, i); }
  }

  /** A lock somebody else relies on stays live through p's step. */
  lemma StaysLive(s: State, p: nat, a: Action, i: nat)
    requires Inv(s) && Enabled(s, p, a) && Live(s, i)
    requires a != Begin(Destroy, i)
    ensures Live(Apply(s, p, a), i)
  {
    StepParts(s, p, a, i);
  }

  lemma StepOther(s: State, p: nat, a: Action, q: nat)
    requires Inv(s) && Enabled(s, p, a) && q < |s.procs| && q != p
    ensures |Apply(s, p, a).procs| == |s.procs| && |Apply(s, p, a).slots| == STRESS_LOCK_MAX
    ensures ProcessOK(Apply(s, p, a), q)
  {
    var t := Apply(s, p, a);
    StepFrame(s, p, a);
    StepExclusive(s, p, a, q);
    assert Exclusive(s, p, q) && ProcessOK(s, q) && ProcessOK(s, p);
    if Destroying(s.procs[q].pc) {
      DyingIsNotLive(s, q);
      LiveIsLock(s, DestroyTarget(s.procs[q].pc));
    }
    forall i | i in t.procs[q].held || Uses(t.procs[q].pc, i) ensures Live(t, i) {
      StaysLive(s, p, a, i);
    }
  }

  lemma StepLive(s: State, p: nat, a: Action)
    requires Inv(s) && Enabled(s, p, a)
    ensures |Apply(s, p, a).procs| == |s.procs|
    ensures var t := Apply(s, p, a);
            forall i :: i in t.procs[p].held || Uses(t.procs[p].pc, i) ==> Live(t, i)
  {
    var t := Apply(s, p, a);
    assert ProcessOK(s, p);
    forall i | i in t.procs[p].held || Uses(t.procs[p].pc, i) ensures Live(t, i) {
      StaysLive(s, p, a, i);
    }
  }

  lemma StepRange(s: State, p: nat, a: Action)
    requires Possible(s, p, a) && PCInRange(s.procs[p].pc) && s.slots[0].magic == MAGIC
    requires a.Begin? ==> 0 < a.slot < STRESS_LOCK_MAX
    ensures |Apply(s, p, a).procs| == |s.procs|
    ensures PCInRange(Apply(s, p, a).procs[p].pc)
  {
  }

  /** The slot a process carries is not also one it already owns. */
  lemma StepCarried(s: State, p: nat, a: Action)
    requires Inv(s) && Enabled(s, p, a)
    ensures |Apply(s, p, a).procs| == |s.procs|
    ensures var you := Apply(s, p, a).procs[p];
            && (Carried(you.pc).Some? ==> Carried(you.pc).value !in you.owned)
            && (forall i :: i in you.owned ==> 0 < i < STRESS_LOCK_MAX)
  {
    var pc := s.procs[p].pc;
    assert ProcessOK(s, p);
    if pc.Scanning? && pc.next < STRESS_LOCK_MAX {
      assert SlotOK(s, pc.next);
      SplitAt(s, p, pc.next);
    }
  }

  lemma StepRefs(s: State, p: nat, a: Action)
    requires Inv(s) && Enabled(s, p, a)
    ensures |Apply(s, p, a).procs| == |s.procs|
    ensures RefsOK(Apply(s, p, a), p)
  {
    assert ProcessOK(s, p) && SlotOK(s, 0);
    if a.Begin? { LiveIsLock(s, a.slot); }
    StepRange(s, p, a);
    StepLive(s, p, a);
    StepCarried(s, p, a);
  }

  lemma StepBeginsPhase(s: State, p: nat, a: Action)
    requires Inv(s) && Enabled(s, p, a) && !a.Advance?
    ensures |Apply(s, p, a).procs| == |s.procs| && |Apply(s, p, a).slots| == STRESS_LOCK_MAX
    ensures PCInRange(Apply(s, p, a).procs[p].pc) && PhaseOK(Apply(s, p, a), p)
  {
    hide Claimed, Held, BigHeld, RefsOK;
    StepRefs(s, p, a);
    assert ProcessOK(s, p);
    if a.Begin? {
      LiveIsLock(s, a.slot);
      SplitAt(s, p, a.slot);
      assert SlotOK(s, a.slot);
    }
  }

  lemma StepPhase(s: State, p: nat, a: Action)
    requires Inv(s) && Enabled(s, p, a)
    ensures |Apply(s, p, a).procs| == |s.procs| && |Apply(s, p, a).slots| == STRESS_LOCK_MAX
    ensures PCInRange(Apply(s, p, a).procs[p].pc) && PhaseOK(Apply(s, p, a), p)
  {
    hide Claimed, Live, Held, BigHeld, RefsOK;
    if a.Advance? {
      StepRefs(s, p, a);
      assert ProcessOK(s, p) && SlotOK(s, Touches(s.procs[p].pc));
    } else {
      StepBeginsPhase(s, p, a);
    }
  }

  lemma ApplyInv(s: State, p: nat, a: Action)
    requires Inv(s) && Enabled(s, p, a)
    ensures Inv(Apply(s, p, a))
  {
    StepFrame(s, p, a);
    StepRefs(s, p, a);
    StepPhase(s, p, a);
    var t := Apply(s, p, a);
    forall q | 0 <= q < |s.procs| && q != p
      ensures ProcessOK(t, q) && Exclusive(t, p, q) && Exclusive(t, q, p)
    {
      StepOther(s, p, a, q);
      StepExclusive(s, p, a, q);
    }
    forall i | 0 <= i < STRESS_LOCK_MAX ensures SlotOK(t, i) {
      StepMagic(s, p, a, i);
      if i == 0 { StepBigFlag(s, p, a); }
      if Live(t, i) { StepLockFlag(s, p, a, i); }
    }
    forall q, r | 0 <= q < |t.procs| && 0 <= r < |t.procs| && q != r ensures Exclusive(t, q, r) {
      if q != p && r != p { assert Exclusive(s, q, r); }
    }
  }

  // ---------- what holds over every run ----------

  lemma {:induction false} RunInv(s: State, run: seq<Event>)
    requires Inv(s) && IsRun(s, run, true)
    ensures IsRun(s, run, false) && Inv(After(s, run))
    decreases |run|
  {
    if run != [] {
      var e := run[0];
      ApplyInv(s, e.p, e.a);
      if e.a.Begin? && e.a.op.Destroy? { NobodyHolds(s, e.a.slot); }
      RunInv(Apply(s, e.p, e.a), run[1..]);
    }
  }

  lemma NobodyHolds(s: State, i: nat)
    requires Quiet(s, i)
    ensures !Held(s, i)
  {
  }

  /** A run whose callers keep their obligations leads from s to t. */
  ghost predicate LeadsTo(s: State, t: State) {
    exists run :: IsRun(s, run, true) && IsRun(s, run, false) && After(s, run) == t
  }

  lemma LeadsToInv(s: State, t: State)
    requires Inv(s) && LeadsTo(s, t)
    ensures Inv(t)
  {
    var run :| IsRun(s, run, true) && IsRun(s, run, false) && After(s, run) == t;
    RunInv(s, run);
  }

  ghost predicate Reachable(s: State) {
    exists n: nat :: LeadsTo(Initial(n), s)
  }

  lemma ReachableInv(s: State)
    requires Reachable(s)
    ensures Inv(s)
  {
    var n: nat :| LeadsTo(Initial(n), s);
    InitialInv(n);
    LeadsToInv(Initial(n), s);
  }

  /** No two processes hold the same lock, and no two are inside the big lock. */
  lemma MutualExclusion(s: State, p: nat, q: nat)
    requires Reachable(s) && p < |s.procs| && q < |s.procs| && p != q
    ensures s.procs[p].held !! s.procs[q].held
    ensures !(InBig(s.procs[p].pc) && InBig(s.procs[q].pc))
  {
    ReachableInv(s);
    assert Exclusive(s, p, q);
  }

  /** No two handles name the same slot, slot 0 is never a handle, and a slot whose handle is live or
      being destroyed keeps its magic, so no scan can hand it out again. */
  lemma UniqueHandles(s: State, p: nat, q: nat)
    requires Reachable(s) && p < |s.procs| && q < |s.procs| && p != q
    ensures s.procs[p].owned !! s.procs[q].owned
    ensures 0 !in s.procs[p].owned
    ensures forall i :: i in s.procs[p].owned ==> i < |s.slots| && s.slots[i].magic == MAGIC
  {
    ReachableInv(s);
    assert Exclusive(s, p, q) && ProcessOK(s, p);
    forall i | i in s.procs[p].owned
      ensures i !in s.procs[q].owned && s.slots[i].magic == MAGIC
    {
      assert Claims(s.procs[p], i) && !Claims(s.procs[q], i);
      assert SlotOK(s, i);
    }
  }

  /** When the scan of stress_lock_get ends it has either found the least slot that was free, and
      nobody owns that slot, or there was none. */
  lemma ScanFindsLeastFree(s: State, p: nat)
    requires Reachable(s) && p < |s.procs| && s.procs[p].pc.Scanning? && Enabled(s, p, Advance)
    ensures var i := s.procs[p].pc.next; var pc := Apply(s, p, Advance).procs[p].pc;
            && (i < |s.slots| && s.slots[i].magic == MAGIC ==> pc == Scanning(i + 1))
            && (i < |s.slots| && s.slots[i].magic != MAGIC ==>
                  pc == GetDone(Some(i)) && 0 < i && s.slots[i].magic == MAGIC_FREE && !Live(s, i))
            && (i >= |s.slots| ==> pc == GetDone(None))
            && TakenBelow(s, i)
  {
    ReachableInv(s);
    var i := s.procs[p].pc.next;
    assert ProcessOK(s, p) && SlotOK(s, 0);
    if i < STRESS_LOCK_MAX {
      assert SlotOK(s, i);
      SplitAt(s, p, i);
      NotBoth(s, p, i);
    }
  }

  /** The flag of a live lock is set exactly while somebody holds it, so no lock is ever lost: on a
      lock nobody holds the next test-and-set succeeds. */
  lemma FlagIsHeld(s: State, i: nat)
    requires Reachable(s) && Live(s, i)
    ensures i < |s.slots| && s.slots[i].flag == Held(s, i)
  {
    ReachableInv(s);
    LiveIsLock(s, i);
    assert SlotOK(s, i);
  }

  /** A test-and-set that fails, whether the process spins on or times out, changes no slot, no other
      process, and neither the locks its process holds nor the slots it is responsible for. */
  lemma FailedAcquireChangesNothing(s: State, p: nat, a: Action)
    requires Enabled(s, p, a) && s.procs[p].pc.Spinning? && s.slots[s.procs[p].pc.target].flag
    ensures var t := Apply(s, p, a);
            && t.slots == s.slots
            && |t.procs| == |s.procs|
            && (forall q :: 0 <= q < |s.procs| && q != p ==> t.procs[q] == s.procs[q])
            && t.procs[p].held == s.procs[p].held
            && (forall i :: Claims(t.procs[p], i) == Claims(s.procs[p], i))
            && (a.GiveUp? ==> t.procs[p].pc.Idle?)
  {
  }

  /** Steps a process needs, without anybody's help, to release the big lock. */
  function ToRelease(pc: PC): nat {
    match pc
    case Scanning(i) => if i < STRESS_LOCK_MAX then STRESS_LOCK_MAX - i + 2 else 2
    case Clearing(_) => 3
    case ClearingFlag(_) => 2
    case GetDone(_) => 1
    case PutDone => 1
    case _ => 0
  }

  /** Whoever is inside the big lock releases it after at most STRESS_LOCK_MAX + 2 own steps. */
  lemma {:induction false} BigLockIsReleased(s: State, p: nat)
    returns (run: seq<Event>)
    requires Inv(s) && p < |s.procs| && InBig(s.procs[p].pc)
    ensures |run| <= ToRelease(s.procs[p].pc) <= STRESS_LOCK_MAX + 2
    ensures forall k :: 0 <= k < |run| ==> run[k] == Event(p, Advance)
    ensures IsRun(s, run, true) && IsRun(s, run, false)
    ensures |After(s, run).slots| == STRESS_LOCK_MAX && !After(s, run).slots[0].flag
    decreases ToRelease(s.procs[p].pc)
  {
    assert ProcessOK(s, p);
    var t := Apply(s, p, Advance);
    ApplyInv(s, p, Advance);
    if InBig(t.procs[p].pc) {
      var rest := BigLockIsReleased(t, p);
      run := [Event(p, Advance)] + rest;
      assert run[1..] == rest;
    } else {
      run := [Event(p, Advance)];
      assert IsRun(t, [], true) && IsRun(t, [], false);
    }
  }

  /** The number of steps of process p in a run. */
  function StepsOf(run: seq<Event>, p: nat): nat
    decreases |run|
  {
    if run == [] then 0 else (if run[0].p == p then 1 else 0) + StepsOf(run[1..], p)
  }

  /** Whatever the others do in between, a process inside the big lock has left it by the time it has
      made that many steps. */
  lemma {:induction false} BigLockIsLeft(s: State, run: seq<Event>, p: nat) returns (k: nat)
    requires Inv(s) && IsRun(s, run, true) && IsRun(s, run, false)
    requires p < |s.procs| && StepsOf(run, p) >= ToRelease(s.procs[p].pc)
    ensures k <= |run| && IsRun(s, run[..k], false)
    ensures p < |After(s, run[..k]).procs| && !InBig(After(s, run[..k]).procs[p].pc)
    decreases |run|
  {
    if !InBig(s.procs[p].pc) {
      k := 0;
    } else {
      var e := run[0];
      assert ProcessOK(s, p);
      ApplyInv(s, e.p, e.a);
      StepFrame(s, e.p, e.a);
      var j := BigLockIsLeft(Apply(s, e.p, e.a), run[1..], p);
      k := j + 1;
      assert run[..k][0] == e && run[..k][1..] == run[1..][..j];
    }
  }

  /** Magics are written only inside the big lock ... */
  lemma MagicNeedsBigLock(s: State, q: nat, a: Action, i: nat)
    requires Inv(s) && Enabled(s, q, a) && i < STRESS_LOCK_MAX
    ensures |Apply(s, q, a).slots| == STRESS_LOCK_MAX
    ensures Apply(s, q, a).slots[i].magic == s.slots[i].magic || (i != 0 && InBig(s.procs[q].pc))
  {
    assert ProcessOK(s, q) && SlotOK(s, 0);
  }

  /** ... so while one process is inside it no other changes any magic.  This is why finding a free slot
      and marking it may be one step of the model; and as the magic of slot 0 never changes, so may the
      two checks of stress_lock_put. */
  lemma MagicIsStable(s: State, p: nat, q: nat, a: Action, i: nat)
    requires Inv(s) && Enabled(s, q, a) && p < |s.procs| && p != q && InBig(s.procs[p].pc) && i < STRESS_LOCK_MAX
    ensures |Apply(s, q, a).slots| == STRESS_LOCK_MAX
    ensures Apply(s, q, a).slots[i].magic == s.slots[i].magic
  {
    MagicNeedsBigLock(s, q, a, i);
    assert Exclusive(s, p, q);
  }

  // ---------- exactly when a lock may be destroyed ----------

  lemma {:induction false} RunConcat(s: State, r1: seq<Event>, r2: seq<Event>)
    requires IsRun(s, r1, false) && IsRun(After(s, r1), r2, false)
    ensures IsRun(s, r1 + r2, false) && After(s, r1 + r2) == After(After(s, r1), r2)
    ensures IsRun(s, r1, true) && IsRun(After(s, r1), r2, true) ==> IsRun(s, r1 + r2, true)
    decreases |r1|
  {
    if r1 == [] {
      assert r1 + r2 == r2;
    } else {
      assert (r1 + r2)[0] == r1[0] && (r1 + r2)[1..] == r1[1..] + r2;
      RunConcat(Apply(s, r1[0].p, r1[0].a), r1[1..], r2);
    }
  }

  lemma Stay(s: State)
    ensures LeadsTo(s, s)
  {
    assert IsRun(s, [], true) && IsRun(s, [], false) && After(s, []) == s;
  }

  lemma OneStep(s: State, p: nat, a: Action, strict: bool) returns (run: seq<Event>)
    requires Possible(s, p, a) && Allowed(s, p, a, strict) && Allowed(s, p, a, false)
    ensures IsRun(s, run, strict) && IsRun(s, run, false) && After(s, run) == Apply(s, p, a)
  {
    run := [Event(p, a)];
    assert run[1..] == [];
    assert IsRun(Apply(s, p, a), [], strict) && IsRun(Apply(s, p, a), [], false);
  }

  /** One more step of a run; a process that destroys nothing has no obligation that strictness adds. */
  lemma Go(s0: State, s: State, p: nat, a: Action) returns (t: State)
    requires LeadsTo(s0, s) && Enabled(s, p, a) && !(a.Begin? && a.op.Destroy?)
    ensures LeadsTo(s0, t) && t == Apply(s, p, a)
  {
    var r1 :| IsRun(s0, r1, true) && IsRun(s0, r1, false) && After(s0, r1) == s;
    var r2 := OneStep(s, p, a, true);
    RunConcat(s0, r1, r2);
    t := Apply(s, p, a);
    assert After(s0, r1 + r2) == t;
  }

  /** The scan runs over the slots in use up to the first free one. */
  lemma {:induction false} Scan(s0: State, s: State, p: nat, k: nat) returns (t: State)
    requires LeadsTo(s0, s) && |s.slots| == STRESS_LOCK_MAX && p < |s.procs|
    requires s.procs[p].pc.Scanning? && s.procs[p].pc.next <= k < STRESS_LOCK_MAX
    requires s.slots[k].magic == MAGIC_FREE
    requires forall j :: 0 <= j < k ==> s.slots[j].magic == MAGIC
    ensures LeadsTo(s0, t) && t == SetPC(s.(slots := Magic(s, k, MAGIC)), p, GetDone(Some(k)))
    decreases k - s.procs[p].pc.next
  {
    hide LeadsTo;
    t := Go(s0, s, p, Advance);
    if s.procs[p].pc.next < k {
      var u := Scan(s0, t, p, k);
      assert u.procs == s.procs[p := u.procs[p]];
      t := u;
    }
  }

  /** Creation by a process that is not disturbed: it gets the least free slot, with a cleared flag. */
  lemma CreateGets(s0: State, s: State, p: nat, k: nat) returns (t: State)
    requires LeadsTo(s0, s) && |s.slots| == STRESS_LOCK_MAX && p < |s.procs| && s.procs[p].pc.Idle?
    requires s.slots[0] == Slot(MAGIC, false) && 0 < k < STRESS_LOCK_MAX && s.slots[k].magic == MAGIC_FREE
    requires forall j :: 0 <= j < k ==> s.slots[j].magic == MAGIC
    ensures LeadsTo(s0, t)
    ensures t.slots == s.slots[k := Slot(MAGIC, false)]
    ensures t.procs == s.procs[p := s.procs[p].(owned := s.procs[p].owned + {k})]
  {
    hide LeadsTo;
    t := Go(s0, s, p, BeginCreate);
    t := Go(s0, t, p, Advance);
    assert t.slots == s.slots[0 := Slot(MAGIC, true)] && t.procs == s.procs[p := s.procs[p].(pc := Scanning(0))];
    t := Scan(s0, t, p, k);
    assert t.procs == s.procs[p := s.procs[p].(pc := GetDone(Some(k)))];
    t := Go(s0, t, p, Advance);
    assert t.procs == s.procs[p := s.procs[p].(pc := Initing(k))];
    t := Go(s0, t, p, Advance);
  }

  predicate MagicOK(slot: Slot) { slot.magic == MAGIC || slot.magic == MAGIC_FREE }

  /** A process that goes on creating locks is handed slot i in the end. */
  lemma {:induction false} CreateUntil(s0: State, s: State, p: nat, i: nat, at: nat) returns (t: State)
    requires LeadsTo(s0, s) && |s.slots| == STRESS_LOCK_MAX && p < |s.procs| && s.procs[p].pc.Idle?
    requires s.slots[0] == Slot(MAGIC, false) && 0 < at <= i < STRESS_LOCK_MAX && s.slots[i].magic == MAGIC_FREE
    requires forall j :: 0 <= j < at ==> s.slots[j].magic == MAGIC
    requires forall j :: 0 <= j < i ==> MagicOK(s.slots[j])
    ensures LeadsTo(s0, t) && |t.slots| == STRESS_LOCK_MAX && |t.procs| == |s.procs|
    ensures t.slots[0] == Slot(MAGIC, false) && t.slots[i] == Slot(MAGIC, false)
    ensures t.procs[p].pc.Idle? && i in t.procs[p].owned && t.procs[p].held == s.procs[p].held
    ensures forall q :: 0 <= q < |s.procs| && q != p ==> t.procs[q] == s.procs[q]
    decreases i - at
  {
    hide LeadsTo;
    assert MagicOK(s.slots[if at < i then at else 0]);
    if s.slots[at].magic == MAGIC {
      t := CreateUntil(s0, s, p, i, at + 1);
    } else {
      t := CreateGets(s0, s, p, at);
      if at < i { t := CreateUntil(s0, t, p, i, at + 1); }
    }
  }

  /** A process that holds lock i, or whose next successful test-and-set gives it lock i. */
  predicate Threat(m: Process, i: nat) {
    i in m.held || (m.pc.Spinning? && m.pc.goal.ToHold? && m.pc.target == i)
  }

  /** While p destroys lock i: its own point, the big lock and the magic of the slot. */
  ghost predicate Stage(s: State, p: nat, i: nat, pc: PC, big: bool, magic: int) {
    && |s.slots| == STRESS_LOCK_MAX && p < |s.procs| && 0 < i < STRESS_LOCK_MAX
    && s.procs[p].pc == pc && s.slots[0] == Slot(MAGIC, big) && s.slots[i].magic == magic
    && forall j :: 0 <= j < STRESS_LOCK_MAX ==> MagicOK(s.slots[j])
  }

  /** Only p has moved, and it holds what it held. */
  predicate OnlyMoved(s: State, t: State, p: nat)
    requires p < |s.procs|
  {
    |t.procs| == |s.procs| && t.procs == s.procs[p := t.procs[p]] && t.procs[p].held == s.procs[p].held
  }

  lemma StageEnter(s0: State, s: State, p: nat, i: nat) returns (t: State)
    requires LeadsTo(s0, s) && Stage(s, p, i, Checking(Destroy, i), false, MAGIC)
    ensures LeadsTo(s0, t) && OnlyMoved(s, t, p) && Stage(t, p, i, Clearing(i), true, MAGIC)
  {
    hide LeadsTo;
    t := Go(s0, s, p, Advance);
    assert Stage(t, p, i, PutChecking(i), false, MAGIC) && OnlyMoved(s, t, p);
    t := Go(s0, t, p, Advance);
    assert Stage(t, p, i, Spinning(0, ToClear(i), 0, false), false, MAGIC) && OnlyMoved(s, t, p);
    t := Go(s0, t, p, Advance);
  }

  lemma StageLeave(s0: State, s: State, p: nat, i: nat) returns (t: State)
    requires LeadsTo(s0, s) && Stage(s, p, i, Clearing(i), true, MAGIC)
    ensures LeadsTo(s0, t) && OnlyMoved(s, t, p)
    ensures Stage(t, p, i, Idle, false, MAGIC_FREE) && !t.slots[i].flag
  {
    hide LeadsTo;
    t := Go(s0, s, p, Advance);
    assert Stage(t, p, i, ClearingFlag(i), true, MAGIC_FREE) && OnlyMoved(s, t, p);
    t := Go(s0, t, p, Advance);
    assert Stage(t, p, i, PutDone, true, MAGIC_FREE) && !t.slots[i].flag && OnlyMoved(s, t, p);
    t := Go(s0, t, p, Advance);
  }

  /** An idle process acquires a live lock whose flag is clear. */
  lemma Acquires(s0: State, s: State, p: nat, i: nat) returns (t: State)
    requires LeadsTo(s0, s) && |s.slots| == STRESS_LOCK_MAX && p < |s.procs| && s.procs[p].pc.Idle?
    requires Live(s, i) && 0 < i < STRESS_LOCK_MAX && s.slots[i] == Slot(MAGIC, false)
    ensures LeadsTo(s0, t) && |t.procs| == |s.procs| && i in t.procs[p].held
    ensures forall q :: 0 <= q < |s.procs| ==> s.procs[q].held <= t.procs[q].held
  {
    hide LeadsTo;
    t := Go(s0, s, p, Begin(Acquire, i));
    assert t.procs == s.procs[p := s.procs[p].(pc := Checking(Acquire, i))] && t.slots == s.slots;
    t := Go(s0, t, p, Advance);
    assert t.procs == s.procs[p := s.procs[p].(pc := Spinning(i, ToHold, 0, false))] && t.slots == s.slots;
    t := Go(s0, t, p, Advance);
  }

  /** The threat of q comes true on the free slot, and the next creations bring the slot back. */
  lemma StageShare(s0: State, s: State, p: nat, i: nat, q: nat) returns (t: State)
    requires LeadsTo(s0, s) && Stage(s, p, i, Idle, false, MAGIC_FREE) && !s.slots[i].flag
    requires q < |s.procs| && q != p && Threat(s.procs[q], i)
    ensures LeadsTo(s0, t) && |t.procs| == |s.procs| && i in t.procs[p].held && i in t.procs[q].held
  {
    hide LeadsTo;
    t := s;
    if i !in s.procs[q].held {
      t := Go(s0, s, q, Advance);
    }
    assert Stage(t, p, i, Idle, false, MAGIC_FREE) && i in t.procs[q].held;
    t := CreateUntil(s0, t, p, i, 1);
    assert Live(t, i);
    t := Acquires(s0, t, p, i);
  }

  /** The same when it is p itself that still holds the lock, and another process is idle. */
  lemma StageShareOwn(s0: State, s: State, p: nat, i: nat, o: nat) returns (t: State)
    requires LeadsTo(s0, s) && Stage(s, p, i, Idle, false, MAGIC_FREE) && i in s.procs[p].held
    requires o < |s.procs| && o != p && s.procs[o].pc.Idle?
    ensures LeadsTo(s0, t) && |t.procs| == |s.procs| && i in t.procs[p].held && i in t.procs[o].held
  {
    hide LeadsTo;
    t := CreateUntil(s0, s, p, i, 1);
    assert Live(t, i);
    t := Acquires(s0, t, o, i);
  }

  /** A process that holds lock i or is on its way to acquiring it. */
  predicate Approaches(m: Process, i: nat) {
    Threat(m, i) || (m.pc.Checking? && (m.pc.op.Acquire? || m.pc.op.AcquireRelax?) && m.pc.slot == i)
  }

  /** The steps of a call that b is in and the beginning of the destruction do not interfere. */
  lemma Commute(s: State, p: nat, i: nat, b: nat, a: Action)
    requires Inv(s) && p < |s.procs| && s.procs[p].pc.Idle? && b < |s.procs| && !s.procs[b].pc.Idle?
    requires (a.Advance? || a.GiveUp?) && Possible(s, b, a)
    ensures var d := Begin(Destroy, i); var t := Apply(s, p, d);
            && Enabled(s, b, a) && Enabled(t, b, a)
            && Possible(Apply(s, b, a), p, d)
            && Apply(t, b, a) == Apply(Apply(s, b, a), p, d)
  {
    assert ProcessOK(s, b);
    var d := Begin(Destroy, i);
    var t, u := Apply(s, p, d), Apply(s, b, a);
    assert Apply(t, b, a).procs == Apply(u, p, d).procs;
  }

  /** b makes a step of its call before p goes on with the destruction it has begun. */
  lemma GoBefore(s0: State, s: State, p: nat, i: nat, b: nat, a: Action) returns (t: State)
    requires Inv(s) && p < |s.procs| && s.procs[p].pc.Idle? && b < |s.procs| && !s.procs[b].pc.Idle?
    requires (a.Advance? || a.GiveUp?) && Possible(s, b, a) && LeadsTo(s0, Apply(s, p, Begin(Destroy, i)))
    ensures t == Apply(s, b, a) && Inv(t) && LeadsTo(s0, Apply(t, p, Begin(Destroy, i)))
    ensures |t.procs| == |s.procs| && t.procs == s.procs[b := t.procs[b]]
  {
    hide LeadsTo;
    Commute(s, p, i, b, a);
    ApplyInv(s, b, a);
    StepFrame(s, b, a);
    var u := Go(s0, Apply(s, p, Begin(Destroy, i)), b, a);
    t := Apply(s, b, a);
  }

  /** Whoever is inside the big lock when p begins to destroy lock i can leave it before p goes on. */
  lemma {:induction false} DriveOut(s0: State, s: State, p: nat, i: nat, b: nat) returns (t: State)
    requires Inv(s) && p < |s.procs| && s.procs[p].pc.Idle? && b < |s.procs| && InBig(s.procs[b].pc)
    requires LeadsTo(s0, Apply(s, p, Begin(Destroy, i)))
    ensures Inv(t) && OnlyMoved(s, t, b) && !t.slots[0].flag
    ensures LeadsTo(s0, Apply(t, p, Begin(Destroy, i)))
    decreases ToRelease(s.procs[b].pc)
  {
    hide LeadsTo;
    assert ProcessOK(s, b);
    t := GoBefore(s0, s, p, i, b, Advance);
    if InBig(t.procs[b].pc) {
      var u := DriveOut(s0, t, p, i, b);
      assert u.procs == s.procs[b := u.procs[b]];
      t := u;
    }
  }

  /** Steps a process needs at most to finish its call if every test-and-set that fails gives up. */
  function ToIdle(pc: PC): nat {
    match pc
    case Idle => 0
    case Checking(_, _) => STRESS_LOCK_MAX + 10
    case PutChecking(_) => 6
    case Spinning(_, goal, _, _) => if goal.ToScan? then STRESS_LOCK_MAX + 4 else 5
    case Scanning(k) => if k < STRESS_LOCK_MAX then STRESS_LOCK_MAX - k + 3 else 3
    case Clearing(_) => 4
    case ClearingFlag(_) => 3
    case GetDone(_) => 2
    case PutDone => 1
    case Initing(_) => 1
    case Storing(_) => 1
  }

  /** Any other process can be brought to the end of its call before p goes on. */
  lemma {:induction false} BringToIdle(s0: State, s: State, p: nat, i: nat, o: nat) returns (t: State)
    requires Inv(s) && p < |s.procs| && s.procs[p].pc.Idle? && o < |s.procs| && o != p
    requires LeadsTo(s0, Apply(s, p, Begin(Destroy, i)))
    ensures Inv(t) && |t.procs| == |s.procs| && t.procs == s.procs[o := t.procs[o]] && t.procs[o].pc.Idle?
    ensures LeadsTo(s0, Apply(t, p, Begin(Destroy, i)))
    decreases ToIdle(s.procs[o].pc)
  {
    hide LeadsTo;
    if s.procs[o].pc.Idle? {
      t := s;
    } else {
      assert ProcessOK(s, o);
      var pc := s.procs[o].pc;
      var a := if pc.Spinning? && s.slots[pc.target].flag then GiveUp else Advance;
      t := GoBefore(s0, s, p, i, o, a);
      var u := BringToIdle(s0, t, p, i, o);
      assert u.procs == s.procs[o := u.procs[o]];
      t := u;
    }
  }

  /** The big lock is free, or can be made so. */
  lemma FreeBigLock(s0: State, s: State, p: nat, i: nat) returns (t: State)
    requires Inv(s) && p < |s.procs| && s.procs[p].pc.Idle? && i in s.procs[p].owned
    requires LeadsTo(s0, Apply(s, p, Begin(Destroy, i)))
    ensures Inv(t) && |t.procs| == |s.procs| && t.procs[p] == s.procs[p]
    ensures forall q :: 0 <= q < |s.procs| ==>
              t.procs[q].held == s.procs[q].held && (!InBig(s.procs[q].pc) ==> t.procs[q] == s.procs[q])
    ensures LeadsTo(s0, Apply(t, p, Begin(Destroy, i)))
    ensures Stage(Apply(t, p, Begin(Destroy, i)), p, i, Checking(Destroy, i), false, MAGIC)
  {
    hide LeadsTo;
    t := s;
    assert SlotOK(s, 0);
    if s.slots[0].flag {
      var b :| 0 <= b < |s.procs| && InBig(s.procs[b].pc);
      t := DriveOut(s0, s, p, i, b);
    }
    OwnedIsMarked(t, p, i);
  }

  /** If another process holds lock i or is on its way to it, its destruction can end in both processes
      holding the lock that is created next in its slot. */
  lemma DestroyShares(s: State, p: nat, i: nat, q: nat) returns (t: State)
    requires Inv(s) && p < |s.procs| && s.procs[p].pc.Idle? && i in s.procs[p].owned
    requires q < |s.procs| && q != p && Approaches(s.procs[q], i)
    ensures LeadsTo(Apply(s, p, Begin(Destroy, i)), t)
    ensures |t.procs| == |s.procs| && i in t.procs[p].held && i in t.procs[q].held
  {
    hide LeadsTo;
    var d := Begin(Destroy, i);
    var s0 := Apply(s, p, d);
    Stay(s0);
    var u := FreeBigLock(s0, s, p, i);
    t := Apply(u, p, d);
    if !Threat(t.procs[q], i) {
      t := Go(s0, t, q, Advance);
    }
    assert Stage(t, p, i, Checking(Destroy, i), false, MAGIC) && Threat(t.procs[q], i);
    t := StageEnter(s0, t, p, i);
    t := StageLeave(s0, t, p, i);
    t := StageShare(s0, t, p, i, q);
  }

  /** If p destroys a lock that it still holds itself, any other process can come to hold it as well. */
  lemma DestroySharesOwn(s: State, p: nat, i: nat, o: nat) returns (t: State)
    requires Inv(s) && p < |s.procs| && s.procs[p].pc.Idle? && i in s.procs[p].owned && i in s.procs[p].held
    requires o < |s.procs| && o != p
    ensures LeadsTo(Apply(s, p, Begin(Destroy, i)), t)
    ensures |t.procs| == |s.procs| && i in t.procs[p].held && i in t.procs[o].held
  {
    hide LeadsTo;
    var d := Begin(Destroy, i);
    var s0 := Apply(s, p, d);
    Stay(s0);
    var u := BringToIdle(s0, s, p, i, o);
    u := FreeBigLock(s0, u, p, i);
    t := StageEnter(s0, Apply(u, p, d), p, i);
    t := StageLeave(s0, t, p, i);
    t := StageShareOwn(s0, t, p, i, o);
  }

  lemma OwnedIsMarked(s: State, p: nat, i: nat)
    requires Inv(s) && p < |s.procs| && i in s.procs[p].owned
    ensures 0 < i < STRESS_LOCK_MAX && s.slots[i].magic == MAGIC && s.slots[0].magic == MAGIC
    ensures forall j :: 0 <= j < STRESS_LOCK_MAX ==> MagicOK(s.slots[j])
  {
    assert ProcessOK(s, p);
    assert Claims(s.procs[p], i);
    assert SlotOK(s, i) && SlotOK(s, 0);
    forall j | 0 <= j < STRESS_LOCK_MAX ensures MagicOK(s.slots[j]) { assert SlotOK(s, j); }
  }

  /** No lock is held by two processes. */
  ghost predicate NothingShared(s: State) {
    forall p, q :: 0 <= p < |s.procs| && 0 <= q < |s.procs| && p != q ==> s.procs[p].held !! s.procs[q].held
  }

  /** Whatever happens after p has begun to destroy lock i, no lock is ever held by two processes. */
  ghost predicate DestroyIsSafe(s: State, p: nat, i: nat)
    requires Possible(s, p, Begin(Destroy, i))
  {
    forall t: State :: LeadsTo(Apply(s, p, Begin(Destroy, i)), t) ==> NothingShared(t)
  }

  /** In every reachable state a process may destroy a lock that it owns exactly when nobody, itself
      included, holds the lock or is on the way to acquiring it, or when there is no other process at all.
      That nobody holds it is not enough. */
  lemma DestroyIsSafeExactly(s: State, p: nat, i: nat)
    requires Reachable(s) && p < |s.procs| && s.procs[p].pc.Idle? && i in s.procs[p].owned
    ensures Possible(s, p, Begin(Destroy, i))
    ensures DestroyIsSafe(s, p, i) <==> Quiet(s, i) || |s.procs| == 1
  {
    ReachableInv(s);
    var d := Begin(Destroy, i);
    if Quiet(s, i) {
      ApplyInv(s, p, d);
      forall t: State | LeadsTo(Apply(s, p, d), t) ensures NothingShared(t) {
        LeadsToInv(Apply(s, p, d), t);
        InvSharesNothing(t);
      }
    } else if |s.procs| == 1 {
      forall t: State | LeadsTo(Apply(s, p, d), t) ensures NothingShared(t) {
        SameProcesses(Apply(s, p, d), t);
      }
    } else {
      DestroyIsUnsafe(s, p, i);
    }
  }

  lemma DestroyIsUnsafe(s: State, p: nat, i: nat)
    requires Inv(s) && p < |s.procs| && s.procs[p].pc.Idle? && i in s.procs[p].owned
    requires !Quiet(s, i) && |s.procs| > 1
    ensures Possible(s, p, Begin(Destroy, i)) && !DestroyIsSafe(s, p, i)
  {
    hide LeadsTo;
    var q :| 0 <= q < |s.procs| && (i in s.procs[q].held || Uses(s.procs[q].pc, i));
    assert ProcessOK(s, q);
    if q == p {
      var o := if p == 0 then 1 else 0;
      var t := DestroySharesOwn(s, p, i, o);
      assert i in t.procs[p].held * t.procs[o].held;
    } else {
      var t := DestroyShares(s, p, i, q);
      assert i in t.procs[p].held * t.procs[q].held;
    }
  }

  /** No step creates or removes a process. */
  lemma {:induction false} RunKeepsProcesses(s: State, run: seq<Event>)
    requires IsRun(s, run, false)
    ensures |After(s, run).procs| == |s.procs|
    decreases |run|
  {
    if run != [] {
      SameCount(s, run[0].p, run[0].a);
      RunKeepsProcesses(Apply(s, run[0].p, run[0].a), run[1..]);
    }
  }

  lemma SameCount(s: State, p: nat, a: Action)
    requires Possible(s, p, a)
    ensures |Apply(s, p, a).procs| == |s.procs|
  {
  }

  lemma SameProcesses(s: State, t: State)
    requires LeadsTo(s, t)
    ensures |t.procs| == |s.procs|
  {
    var run :| IsRun(s, run, true) && IsRun(s, run, false) && After(s, run) == t;
    RunKeepsProcesses(s, run);
  }

  lemma InvSharesNothing(s: State)
    requires Inv(s)
    ensures NothingShared(s)
  {
    forall p, q | 0 <= p < |s.procs| && 0 <= q < |s.procs| && p != q ensures s.procs[p].held !! s.procs[q].held {
      assert Exclusive(s, p, q);
    }
  }

  // ---------- a run in which it goes wrong ----------

  /** s0 leads to s by a run in which locks are destroyed as soon as nobody holds them. */
  ghost predicate LooselyReaches(s0: State, s: State) {
    exists run :: IsRun(s0, run, false) && After(s0, run) == s
  }

  lemma ThenDestroy(s0: State, s: State, p: nat, i: nat, t: State)
    requires LeadsTo(s0, s) && Possible(s, p, Begin(Destroy, i)) && Allowed(s, p, Begin(Destroy, i), false)
    requires LeadsTo(Apply(s, p, Begin(Destroy, i)), t)
    ensures LooselyReaches(s0, t)
  {
    var d := Begin(Destroy, i);
    var r1 :| IsRun(s0, r1, true) && IsRun(s0, r1, false) && After(s0, r1) == s;
    var r2 := OneStep(s, p, d, false);
    var r3 :| IsRun(Apply(s, p, d), r3, true) && IsRun(Apply(s, p, d), r3, false) && After(Apply(s, p, d), r3) == t;
    RunConcat(s0, r1, r2);
    RunConcat(s0, r1 + r2, r3);
  }

  /** Process 0 creates a lock, process 1 begins to acquire it, and process 0 destroys it, which nobody
      holds: both can come to hold slot 1. */
  lemma DestroyUnderSpinnerBreaksExclusion() returns (t: State)
    ensures LooselyReaches(Initial(2), t)
    ensures |t.procs| == 2 && 1 in t.procs[0].held && 1 in t.procs[1].held
  {
    hide LeadsTo;
    var s0 := Initial(2);
    InitialInv(2);
    Stay(s0);
    var s := CreateGets(s0, s0, 0, 1);
    assert |s.procs| == 2 && 1 in s.procs[0].owned && s.procs[1].pc.Idle?;
    assert Live(s, 1);
    s := Go(s0, s, 1, Begin(Acquire, 1));
    LeadsToInv(s0, s);
    t := DestroyShares(s, 0, 1, 1);
    ThenDestroy(s0, s, 0, 1, t);
  }
}
