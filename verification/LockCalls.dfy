/** What each call on the lock pool does, from its first step to its last. */
module LockCalls {
  import opened LockPool
  import opened Wrappers

  // ---------- acquire and release ----------

  /** A call whose handle does not carry the magic number fails and changes nothing; a handle that was to be
      destroyed is still the caller's. */
  lemma WrongMagicFails(s: State, p: nat, op: Op, i: nat)
    requires p < |s.procs| && |s.slots| == 16384 && i < 16384
    requires s.procs[p].pc == Checking(op, i) && s.slots[i].magic != 0x387cb9e5
    ensures Possible(s, p, Advance)
    ensures var t := Apply(s, p, Advance); var me := s.procs[p];
            && t.slots == s.slots
            && t.procs == s.procs[p := Process(Idle, me.held, if op == Destroy then me.owned + {i} else me.owned)]
  {
    assert s.procs[p].owned + {} == s.procs[p].owned;
  }

  /** Process p makes the steps one after the other, and nobody else makes any. */
  ghost predicate Alone(s: State, p: nat, actions: seq<Action>, t: State)
    decreases |actions|
  {
    if actions == [] then s == t
    else Enabled(s, p, actions[0]) && Alone(Apply(s, p, actions[0]), p, actions[1..], t)
  }

  lemma AloneThree(s: State, p: nat, a: Action, s1: State, b: Action, s2: State, c: Action, t: State)
    requires Enabled(s, p, a) && s1 == Apply(s, p, a)
    requires Enabled(s1, p, b) && s2 == Apply(s1, p, b)
    requires Enabled(s2, p, c) && t == Apply(s2, p, c)
    ensures Alone(s, p, [a, b, c], t)
  {
    assert [a, b, c][1..] == [b, c] && [b, c][1..] == [c] && [c][1..] == [];
    assert Alone(t, p, [], t);
    assert Alone(s2, p, [c], t);
    assert Alone(s1, p, [b, c], t);
  }

  lemma HeldIsMarked(s: State, p: nat, i: nat)
    requires Inv(s) && p < |s.procs| && i in s.procs[p].held
    ensures 0 < i < STRESS_LOCK_MAX && s.slots[i] == Slot(MAGIC, true)
  {
    assert ProcessOK(s, p);
    LiveIsLock(s, i);
    var o :| 0 <= o < |s.procs| && i in s.procs[o].owned;
    OwnedIsMarked(s, o, i);
    assert SlotOK(s, i);
  }

  /** A release clears the flag, gives up the lock, and changes nothing else. */
  lemma Releases(s: State, p: nat, i: nat)
    requires Reachable(s) && p < |s.procs| && s.procs[p].pc.Idle? && i in s.procs[p].held
    ensures i < |s.slots|
    ensures Alone(s, p, [Begin(Release, i), Advance, Advance],
                  State(s.slots[i := Slot(MAGIC, false)],
                        s.procs[p := s.procs[p].(held := s.procs[p].held - {i})]))
  {
    ReachableInv(s);
    HeldIsMarked(s, p, i);
    var s1 := Apply(s, p, Begin(Release, i));
    assert s1.procs[p].pc == Checking(Release, i) && s1.slots == s.slots;
    var s2 := Apply(s1, p, Advance);
    assert s2.procs[p].pc == Storing(i) && s2.slots == s.slots;
    var t := State(s.slots[i := Slot(MAGIC, false)], s.procs[p := s.procs[p].(held := s.procs[p].held - {i})]);
    assert Apply(s2, p, Advance).procs == t.procs;
    AloneThree(s, p, Begin(Release, i), s1, Advance, s2, Advance, t);
  }

  /** Steps a process that has begun to release still has to make. */
  function ToStore(pc: PC): nat {
    match pc case Checking(_, _) => 2 case Storing(_) => 1 case _ => 0
  }

  predicate Releasing(pc: PC, i: nat) { pc == Checking(Release, i) || pc == Storing(i) }

  /** Whatever the others do in between, by the time a process that has begun to release has made its two
      more steps there was a moment at which it did not hold the lock any more and the flag was clear. */
  lemma {:induction false} ReleaseTakesEffect(s: State, run: seq<Event>, p: nat, i: nat) returns (k: nat)
    requires Inv(s) && IsRun(s, run, true) && IsRun(s, run, false)
    requires p < |s.procs| && Releasing(s.procs[p].pc, i) && StepsOf(run, p) >= ToStore(s.procs[p].pc)
    ensures k <= |run| && IsRun(s, run[..k], false)
    ensures var t := After(s, run[..k]);
            i < |t.slots| && p < |t.procs| && !t.slots[i].flag && i !in t.procs[p].held && t.procs[p].pc.Idle?
    decreases |run|
  {
    var e := run[0];
    assert ProcessOK(s, p);
    HeldIsMarked(s, p, i);
    ApplyInv(s, e.p, e.a);
    StepFrame(s, e.p, e.a);
    var t := Apply(s, e.p, e.a);
    if e.p == p && s.procs[p].pc == Storing(i) {
      k := 1;
      assert run[..1] == [e] && run[..1][1..] == [];
      assert After(t, []) == t;
    } else {
      var j := ReleaseTakesEffect(t, run[1..], p, i);
      k := j + 1;
      assert run[..k][0] == e && run[..k][1..] == run[1..][..j];
    }
  }

  /** Acquiring a live lock whose flag is clear, relaxed or not, sets the flag, gives the lock, and changes
      nothing else. */
  lemma AcquiresFree(s: State, p: nat, i: nat, op: Op)
    requires Reachable(s) && p < |s.procs| && s.procs[p].pc.Idle? && (op.Acquire? || op.AcquireRelax?)
    requires Live(s, i) && i < |s.slots| && !s.slots[i].flag
    ensures Alone(s, p, [Begin(op, i), Advance, Advance],
                  State(s.slots[i := Slot(MAGIC, true)],
                        s.procs[p := s.procs[p].(held := s.procs[p].held + {i})]))
  {
    ReachableInv(s);
    var o :| 0 <= o < |s.procs| && i in s.procs[o].owned;
    OwnedIsMarked(s, o, i);
    var s1 := Apply(s, p, Begin(op, i));
    assert s1.procs[p].pc == Checking(op, i) && s1.slots == s.slots;
    var s2 := Apply(s1, p, Advance);
    assert s2.procs[p].pc == Spinning(i, ToHold, 0, op.AcquireRelax?) && s2.slots == s.slots;
    var t := State(s.slots[i := Slot(MAGIC, true)], s.procs[p := s.procs[p].(held := s.procs[p].held + {i})]);
    assert Apply(s2, p, Advance).procs == t.procs;
    AloneThree(s, p, Begin(op, i), s1, Advance, s2, Advance, t);
  }

  /** n steps without interruption. */
  function Advances(n: nat): seq<Action>
  {
    if n == 0 then [] else [Advance] + Advances(n - 1)
  }

  /** While the flag stays set a plain acquire fails 1001 times before it goes on with the relaxed one; the
      relaxed one goes on for ever.  Nothing else changes. */
  lemma {:induction false} SpinsOn(s: State, p: nat, i: nat, spins: nat, n: nat)
    requires |s.slots| == STRESS_LOCK_MAX && i < STRESS_LOCK_MAX && s.slots[i].flag && p < |s.procs|
    requires s.procs[p].pc == Spinning(i, ToHold, spins, false) && spins + n <= 1002
    ensures Alone(s, p, Advances(n), SetPC(s, p, if spins + n <= 1001 || n == 0 then Spinning(i, ToHold, spins + n, false)
                                                 else Spinning(i, ToHold, 0, true)))
    decreases n
  {
    if n == 0 {
      assert SetPC(s, p, s.procs[p].pc) == s;
    } else if n == 1 {
      var t := Apply(s, p, Advance);
      assert Advances(1)[1..] == [];
      assert Alone(t, p, [], t);
    } else {
      var t := Apply(s, p, Advance);
      SpinsOn(t, p, i, spins + 1, n - 1);
      assert Advances(n)[1..] == Advances(n - 1);
      assert forall pc :: SetPC(t, p, pc) == SetPC(s, p, pc) by {
        forall pc ensures SetPC(t, p, pc) == SetPC(s, p, pc) { assert SetPC(t, p, pc).procs == SetPC(s, p, pc).procs; }
      }
    }
  }

  // ---------- create and destroy ----------

  /** A destruction that is not disturbed clears the whole slot, takes the handle away, and changes nothing
      else. */
  lemma Destroys(s: State, p: nat, i: nat)
    requires Reachable(s) && p < |s.procs| && s.procs[p].pc.Idle? && i in s.procs[p].owned && Quiet(s, i)
    requires |s.slots| > 0 && !s.slots[0].flag
    ensures i < |s.slots|
    ensures Alone(s, p, [Begin(Destroy, i)] + Advances(6),
                  State(s.slots[i := Slot(MAGIC_FREE, false)],
                        s.procs[p := s.procs[p].(owned := s.procs[p].owned - {i})]))
  {
    ReachableInv(s);
    OwnedIsMarked(s, p, i);
    var me := s.procs[p].(owned := s.procs[p].owned - {i});
    assert Apply(s, p, Begin(Destroy, i)) == State(s.slots, s.procs[p := me.(pc := Checking(Destroy, i))]);
    DestroysRest(s, p, i, me);
    assert ([Begin(Destroy, i)] + Advances(6))[1..] == Advances(6);
  }

  lemma DestroysRest(s: State, p: nat, i: nat, me: Process)
    requires |s.slots| == STRESS_LOCK_MAX && p < |s.procs| && 0 < i < STRESS_LOCK_MAX && me.pc.Idle?
    requires s.slots[i].magic == MAGIC && s.slots[0] == Slot(MAGIC, false)
    ensures Alone(State(s.slots, s.procs[p := me.(pc := Checking(Destroy, i))]), p, Advances(6),
                  State(s.slots[i := Slot(MAGIC_FREE, false)], s.procs[p := me]))
  {
    hide Alone;
    var s1 := State(s.slots, s.procs[p := me.(pc := Checking(Destroy, i))]);
    var s2 := State(s.slots, s.procs[p := me.(pc := PutChecking(i))]);
    var s3 := State(s.slots, s.procs[p := me.(pc := Spinning(0, ToClear(i), 0, false))]);
    var s4 := State(s.slots[0 := Slot(MAGIC, true)], s.procs[p := me.(pc := Clearing(i))]);
    var s7 := State(s.slots[i := Slot(MAGIC_FREE, false)], s.procs[p := me]);
    ClearsSlot(s, p, i, me);
    MoreSteps(s3, p, s4, 3, s7);
    MoreSteps(s2, p, s3, 4, s7);
    MoreSteps(s1, p, s2, 5, s7);
  }

  lemma ClearsSlot(s: State, p: nat, i: nat, me: Process)
    requires |s.slots| == STRESS_LOCK_MAX && p < |s.procs| && 0 < i < STRESS_LOCK_MAX && me.pc.Idle?
    requires s.slots[0] == Slot(MAGIC, false)
    ensures Alone(State(s.slots[0 := Slot(MAGIC, true)], s.procs[p := me.(pc := Clearing(i))]), p, Advances(3),
                  State(s.slots[i := Slot(MAGIC_FREE, false)], s.procs[p := me]))
  {
    hide Alone;
    var locked := s.slots[0 := Slot(MAGIC, true)];
    var s4 := State(locked, s.procs[p := me.(pc := Clearing(i))]);
    var s5 := State(locked[i := s.slots[i].(magic := MAGIC_FREE)], s.procs[p := me.(pc := ClearingFlag(i))]);
    var s6 := State(locked[i := Slot(MAGIC_FREE, false)], s.procs[p := me.(pc := PutDone)]);
    var s7 := State(s.slots[i := Slot(MAGIC_FREE, false)], s.procs[p := me]);
    MoreSteps(s6, p, s7, 0, s7);
    MoreSteps(s5, p, s6, 1, s7);
    MoreSteps(s4, p, s5, 2, s7);
  }

  /** A process inside the big lock that scans from slot m on. */
  function ScanState(s: State, p: nat, m: nat): State
    requires |s.slots| > 0 && p < |s.procs|
  {
    State(s.slots[0 := Slot(MAGIC, true)], s.procs[p := s.procs[p].(pc := Scanning(m))])
  }

  /** The scan passes over slots in use, a step for each. */
  lemma {:induction false} ScansOver(s: State, p: nat, m: nat, k: nat, n: nat, u: State)
    requires |s.slots| == STRESS_LOCK_MAX && p < |s.procs| && m <= k <= STRESS_LOCK_MAX
    requires forall j :: 0 <= j < k ==> s.slots[j].magic == MAGIC
    requires n > 0 && Alone(ScanState(s, p, k), p, Advances(n), u)
    ensures Alone(ScanState(s, p, m), p, Advances(n + (k - m)), u)
    decreases k - m
  {
    hide Alone;
    if m < k {
      ScansOver(s, p, m + 1, k, n, u);
      MoreSteps(ScanState(s, p, m), p, ScanState(s, p, m + 1), n + (k - m) - 1, u);
    }
  }

  /** The start of a creation that is not disturbed. */
  lemma EntersScan(s: State, p: nat, n: nat, u: State)
    requires |s.slots| == STRESS_LOCK_MAX && p < |s.procs| && s.procs[p].pc.Idle? && s.slots[0] == Slot(MAGIC, false)
    requires n > 0 && Alone(ScanState(s, p, 0), p, Advances(n), u)
    ensures Alone(s, p, [BeginCreate] + Advances(n + 1), u)
  {
    var spin := State(s.slots, s.procs[p := s.procs[p].(pc := StartSpin(0, ToScan, false))]);
    MoreSteps(spin, p, ScanState(s, p, 0), n, u);
    assert Apply(s, p, BeginCreate) == spin;
    assert ([BeginCreate] + Advances(n + 1))[1..] == Advances(n + 1);
  }

  /** A creation that is not disturbed takes the least free slot, marks it, leaves its flag clear and hands it
      out; nothing else changes. */
  lemma Creates(s: State, p: nat, k: nat)
    requires |s.slots| == STRESS_LOCK_MAX && p < |s.procs| && s.procs[p].pc.Idle? && s.slots[0] == Slot(MAGIC, false)
    requires 0 < k < STRESS_LOCK_MAX && s.slots[k].magic == MAGIC_FREE
    requires forall j :: 0 <= j < k ==> s.slots[j].magic == MAGIC
    ensures Alone(s, p, [BeginCreate] + Advances(k + 4),
                  State(s.slots[k := Slot(MAGIC, false)],
                        s.procs[p := s.procs[p].(owned := s.procs[p].owned + {k})]))
  {
    hide Alone;
    var me := s.procs[p];
    var marked := s.slots[k := s.slots[k].(magic := MAGIC)];
    var s2 := State(marked[0 := Slot(MAGIC, true)], s.procs[p := me.(pc := GetDone(Some(k)))]);
    var s3 := State(marked, s.procs[p := me.(pc := Initing(k))]);
    var t := State(s.slots[k := Slot(MAGIC, false)], s.procs[p := me.(owned := me.owned + {k})]);
    MoreSteps(s3, p, t, 0, t);
    MoreSteps(s2, p, s3, 1, t);
    MoreSteps(ScanState(s, p, k), p, s2, 2, t);
    ScansOver(s, p, 0, k, 3, t);
    EntersScan(s, p, k + 3, t);
  }

  /** A creation that finds every slot in use ends with the big lock released and everything as before. */
  lemma CreateFails(s: State, p: nat, n: nat)
    requires n == STRESS_LOCK_MAX + 3
    requires |s.slots| == STRESS_LOCK_MAX && p < |s.procs| && s.procs[p].pc.Idle?
    requires s.slots[0] == Slot(MAGIC, false) && forall j :: 0 <= j < STRESS_LOCK_MAX ==> s.slots[j].magic == MAGIC
    ensures Alone(s, p, [BeginCreate] + Advances(n), s)
  {
    hide Alone;
    var s2 := State(s.slots[0 := Slot(MAGIC, true)], s.procs[p := s.procs[p].(pc := GetDone(None))]);
    MoreSteps(s2, p, s, 0, s);
    MoreSteps(ScanState(s, p, STRESS_LOCK_MAX), p, s2, 1, s);
    ScansOver(s, p, 0, STRESS_LOCK_MAX, 2, s);
    EntersScan(s, p, n - 1, s);
  }

  lemma MoreSteps(s: State, p: nat, t: State, n: nat, u: State)
    requires Possible(s, p, Advance) && Apply(s, p, Advance).slots == t.slots && Apply(s, p, Advance).procs == t.procs
    requires n == 0 ==> t == u
    requires n > 0 ==> Alone(t, p, Advances(n), u)
    ensures Alone(s, p, Advances(n + 1), u)
  {
    assert Apply(s, p, Advance) == t;
    assert Advances(n + 1)[1..] == Advances(n);
    if n == 0 { assert Alone(t, p, [], u); }
  }
}
