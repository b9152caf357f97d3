/** The shared map of reserved ports. */
module Ports {
  import opened Arithmetic

  const PORTS: nat := 65536
  const MIN_PORT: int := 1024
  const MAX_PORT: int := 65535

  /** One bit for each port. */
  type Bitmap = s: seq<bool> | |s| == PORTS witness seq(PORTS, _ => false)

  /** stress_net_port_range_ok */
  predicate RangeOK(first: int, last: int) { 0 <= first <= last < PORTS }

  // ---------- blocks of free ports ----------

  predicate Free(taken: Bitmap, bound: Bitmap, i: nat)
    requires i < PORTS
  {
    !taken[i] && !bound[i]
  }

  predicate FreeBlock(taken: Bitmap, bound: Bitmap, p: nat, quantity: nat) {
    p + quantity <= PORTS && forall i: nat | p <= i < p + quantity :: Free(taken, bound, i)
  }

  predicate NoneBefore(taken: Bitmap, bound: Bitmap, first: nat, quantity: nat, p: nat) {
    forall r: nat | first <= r < p :: !FreeBlock(taken, bound, r, quantity)
  }

  /** The nearest available contiguous ports at or above the first one asked for. */
  predicate LeastBlock(taken: Bitmap, bound: Bitmap, first: nat, quantity: nat, p: nat) {
    p >= first && FreeBlock(taken, bound, p, quantity) && NoneBefore(taken, bound, first, quantity, p)
  }

  lemma LeastIsUnique(taken: Bitmap, bound: Bitmap, first: nat, quantity: nat, p: nat, r: nat)
    requires LeastBlock(taken, bound, first, quantity, p) && LeastBlock(taken, bound, first, quantity, r)
    ensures p == r
  {
    hide FreeBlock;
  }

  lemma {:induction false} LeastExists(taken: Bitmap, bound: Bitmap, first: nat, quantity: nat, r: nat, at: nat) returns (p: nat)
    requires first <= at <= r && FreeBlock(taken, bound, r, quantity)
    requires NoneBefore(taken, bound, first, quantity, at)
    ensures LeastBlock(taken, bound, first, quantity, p)
    decreases r - at
  {
    hide FreeBlock;
    if FreeBlock(taken, bound, at, quantity) {
      p := at;
    } else {
      p := LeastExists(taken, bound, first, quantity, r, at + 1);
    }
  }

  function Marked(taken: Bitmap, p: nat, quantity: nat): (m: Bitmap)
    ensures forall i :: 0 <= i < PORTS ==> m[i] == (taken[i] || p <= i < p + quantity)
  {
    seq(PORTS, i requires 0 <= i < PORTS => taken[i] || p <= i < p + quantity)
  }

  function Cleared(taken: Bitmap, first: int, last: int): (m: Bitmap)
    ensures forall i :: 0 <= i < PORTS ==> m[i] == (taken[i] && !(first <= i <= last))
  {
    seq(PORTS, i requires 0 <= i < PORTS => taken[i] && !(first <= i <= last))
  }

  // ---------- the outcome of a reservation ----------

  /** The lock is taken once at the start and again after every 17 ports that did not end the scan. */
  function LocksFor(first: nat, last: nat): nat
    requires first <= last
  {
    1 + (last - first) / 17
  }

  /** How the scan goes when the lock can be taken locks times and not again. */
  ghost predicate Reserves(taken: Bitmap, bound: Bitmap, first: nat, quantity: nat, locks: nat,
                           port: int, after: Bitmap)
    requires quantity >= 1
  {
    if port == -1 then
      after == taken
      && forall p: nat | LeastBlock(taken, bound, first, quantity, p) :: locks < LocksFor(first, p + quantity - 1)
    else
      && port >= 0 && LeastBlock(taken, bound, first, quantity, port)
      && LocksFor(first, port + quantity - 1) <= locks
      && after == Marked(taken, port, quantity)
  }

  /** The whole of stress_net_reserve_ports, seen as one step. */
  ghost predicate Outcome(taken: Bitmap, bound: Bitmap, first: int, last: int, locks: nat, port: int, after: Bitmap) {
    if RangeOK(first, last) then Reserves(taken, bound, first, last - first + 1, locks, port, after)
    else port == -1 && after == taken
  }

  class PortMap {
    var taken: Bitmap

    constructor ()
      ensures forall i :: 0 <= i < PORTS ==> !taken[i]
    {
      taken := seq(PORTS, _ => false);
    }

    /** stress_net_reserve_ports: bound holds the ports that /proc/net shows as bound. */
    method Reserve(first: int, last: int, bound: Bitmap, locks: nat) returns (port: int)
      modifies this
      ensures Outcome(old(taken), bound, first, last, locks, port, taken)
      ensures !(0 <= first <= last <= 65535) ==> port == -1 && taken == old(taken)
    {
      hide Reserves;
      if !RangeOK(first, last) {
        return -1;
      }
      if first == last {
        port := ReserveOne(first, bound, locks);
      } else {
        port := ReserveBlock(first, last - first + 1, bound, locks);
      }
    }

    method ReserveOne(first: nat, bound: Bitmap, locks: nat) returns (port: int)
      requires first < PORTS
      modifies this
      ensures Reserves(old(taken), bound, first, 1, locks, port, taken)
    {
      hide Free, FreeBlock;
      NoLocks(taken, bound, first, 1);
      if locks == 0 {
        return -1;
      }
      ghost var was := taken;
      var left := locks - 1;
      var yieldCount := 0;
      var i: nat := first;
      while i < PORTS
        invariant first <= i <= PORTS && taken == was && NoneBefore(was, bound, first, 1, i)
        invariant 0 <= left < locks && 0 <= yieldCount <= 16
        invariant i - first == 17 * (locks - 1 - left) + yieldCount
      {
        OnePort(was, bound, i);
        if Free(taken, bound, i) {
          LocksAre(first, i, locks - 1 - left, yieldCount);
          MarkOne(was, i);
          taken := taken[i := true];
          return i;
        }
        yieldCount := yieldCount + 1;
        if yieldCount > 16 {
          yieldCount := 0;
          if left == 0 {
            TooFew(was, bound, first, 1, locks, i + 1);
            return -1;
          }
          left := left - 1;
        }
        i := i + 1;
      }
      NoneFits(was, bound, first, 1, PORTS);
      return -1;
    }

    method ReserveBlock(first: nat, quantity: nat, bound: Bitmap, locks: nat) returns (port: int)
      requires quantity >= 1 && first + quantity <= PORTS
      modifies this
      ensures Reserves(old(taken), bound, first, quantity, locks, port, taken)
    {
      hide Free, FreeBlock;
      NoLocks(taken, bound, first, quantity);
      if locks == 0 {
        return -1;
      }
      ghost var was := taken;
      var left := locks - 1;
      var yieldCount := 0;
      var j: nat := 0;
      var i: nat := first;
      port := -1;
      while i < PORTS
        invariant first <= i <= PORTS && taken == was && Scanned(was, bound, first, quantity, i, j)
        invariant 0 <= left < locks && 0 <= yieldCount <= 16
        invariant i - first == 17 * (locks - 1 - left) + yieldCount
        invariant port == -1
      {
        ScanStep(was, bound, first, quantity, i, j);
        if Free(taken, bound, i) {
          j := j + 1;
          if j == quantity {
            port := i + 1 - quantity;
            LocksAre(first, i, locks - 1 - left, yieldCount);
            break;
          }
        } else {
          port := -1;
          j := 0;
        }
        yieldCount := yieldCount + 1;
        if yieldCount > 16 {
          yieldCount := 0;
          if left == 0 {
            TooFew(was, bound, first, quantity, locks, i + 1);
            return -1;
          }
          left := left - 1;
        }
        i := i + 1;
      }
      if port != -1 {
        MarkAll(port, quantity);
      } else {
        NoneFits(was, bound, first, quantity, PORTS);
      }
    }

    method MarkAll(port: nat, quantity: nat)
      requires port + quantity <= PORTS
      modifies this
      ensures taken == Marked(old(taken), port, quantity)
    {
      var i := port;
      while i < port + quantity
        invariant port <= i <= port + quantity && taken == Marked(old(taken), port, i - port)
      {
        taken := taken[i := true];
        i := i + 1;
      }
    }

    /** stress_net_release_ports */
    method Release(first: int, last: int)
      modifies this
      ensures taken == if RangeOK(first, last) then Cleared(old(taken), first, last) else old(taken)
      ensures 0 <= first <= last <= 65535 ==>
                forall i: nat :: i < 65536 ==> taken[i] == (old(taken)[i] && !(first <= i <= last))
      ensures !(0 <= first <= last <= 65535) ==> taken == old(taken)
    {
      if RangeOK(first, last) {
        var i := first;
        while i <= last
          invariant first <= i <= last + 1 && taken == Cleared(old(taken), first, i - 1)
        {
          taken := taken[i := false];
          i := i + 1;
        }
      }
    }
  }

  // ---------- the scan ----------

  lemma OnePort(taken: Bitmap, bound: Bitmap, i: nat)
    requires i < PORTS
    ensures FreeBlock(taken, bound, i, 1) <==> Free(taken, bound, i)
  {
  }

  lemma MarkOne(taken: Bitmap, i: nat)
    requires i < PORTS
    ensures taken[i := true] == Marked(taken, i, 1)
  {
  }

  lemma LocksAre(first: nat, last: nat, rounds: nat, yieldCount: nat)
    requires last - first == 17 * rounds + yieldCount && yieldCount <= 16
    ensures LocksFor(first, last) == 1 + rounds
  {
  }

  lemma NoLocks(taken: Bitmap, bound: Bitmap, first: nat, quantity: nat)
    requires quantity >= 1
    ensures Reserves(taken, bound, first, quantity, 0, -1, taken)
  {
  }

  /** No block ends before port end: the locks were too few to get further. */
  lemma TooFew(taken: Bitmap, bound: Bitmap, first: nat, quantity: nat, locks: nat, end: nat)
    requires quantity >= 1 && end - first == 17 * locks
    requires forall r: nat | first <= r && r + quantity <= end :: !FreeBlock(taken, bound, r, quantity)
    ensures Reserves(taken, bound, first, quantity, locks, -1, taken)
  {
    hide FreeBlock, NoneBefore;
    forall p: nat | LeastBlock(taken, bound, first, quantity, p)
      ensures locks < LocksFor(first, p + quantity - 1)
    {
      assert p + quantity > end;
      assert (p + quantity - 1 - first) / 17 >= locks;
    }
  }

  lemma NoneFits(taken: Bitmap, bound: Bitmap, first: nat, quantity: nat, i: nat)
    requires quantity >= 1
    requires forall r: nat | first <= r && r + quantity <= PORTS :: !FreeBlock(taken, bound, r, quantity)
    ensures forall locks: nat :: Reserves(taken, bound, first, quantity, locks, -1, taken)
  {
  }

  /** The last j ports before i are free, and no block starts before them. */
  ghost predicate Scanned(taken: Bitmap, bound: Bitmap, first: nat, quantity: nat, i: nat, j: nat) {
    && first + j <= i <= PORTS && j < quantity
    && (forall r: nat | i - j <= r < i :: Free(taken, bound, r))
    && NoneBefore(taken, bound, first, quantity, i - j)
  }

  lemma Blocked(taken: Bitmap, bound: Bitmap, r: nat, quantity: nat, i: nat)
    requires i < PORTS && r <= i < r + quantity && !Free(taken, bound, i)
    ensures !FreeBlock(taken, bound, r, quantity)
  {
  }

  lemma ScanStep(taken: Bitmap, bound: Bitmap, first: nat, quantity: nat, i: nat, j: nat)
    requires i < PORTS && Scanned(taken, bound, first, quantity, i, j)
    ensures !Free(taken, bound, i) ==> Scanned(taken, bound, first, quantity, i + 1, 0)
    ensures Free(taken, bound, i) && j + 1 < quantity ==> Scanned(taken, bound, first, quantity, i + 1, j + 1)
    ensures Free(taken, bound, i) && j + 1 == quantity ==> LeastBlock(taken, bound, first, quantity, i - j)
  {
    hide Free;
    if !Free(taken, bound, i) {
      forall r: nat | i - j <= r < i + 1 ensures !FreeBlock(taken, bound, r, quantity) {
        Blocked(taken, bound, r, quantity, i);
      }
    }
  }

  // ---------- what reservations mean ----------

  ghost predicate NoBlock(taken: Bitmap, bound: Bitmap, first: nat, quantity: nat) {
    forall r: nat | r >= first :: !FreeBlock(taken, bound, r, quantity)
  }

  /** If the lock can be taken often enough, the reservation fails exactly when no block fits. */
  lemma FailsExactly(taken: Bitmap, bound: Bitmap, first: int, last: int, locks: nat, port: int, after: Bitmap)
    requires 0 <= first <= last <= 65535 && locks >= LocksFor(first, PORTS - 1)
    requires Outcome(taken, bound, first, last, locks, port, after)
    ensures port == -1 <==> NoBlock(taken, bound, first, last - first + 1)
  {
    hide FreeBlock;
    var quantity := last - first + 1;
    if port == -1 {
      forall r: nat | r >= first ensures !FreeBlock(taken, bound, r, quantity) {
        if FreeBlock(taken, bound, r, quantity) {
          var p := LeastExists(taken, bound, first, quantity, r, first);
          EnoughLocks(taken, bound, first, quantity, p);
        }
      }
    }
  }

  /** A block is found from below: when all bits of both maps are clear over some block at or above the
      first port, a block that starts no later is reserved, its own ports are marked and no others. */
  lemma FreeIsFound(taken: Bitmap, bound: Bitmap, first: int, last: int, locks: nat, port: int, after: Bitmap, p: nat)
    requires 0 <= first <= last <= 65535 && locks >= LocksFor(first, PORTS - 1)
    requires Outcome(taken, bound, first, last, locks, port, after)
    requires first <= p && p + (last - first) <= 65535
    requires forall i: nat :: p <= i <= p + (last - first) ==> !taken[i] && !bound[i]
    ensures first <= port <= p
    ensures forall i: nat :: port <= i <= port + (last - first) ==> !taken[i] && !bound[i] && after[i]
    ensures forall i: nat :: i < 65536 && !(port <= i <= port + (last - first)) ==> after[i] == taken[i]
  {
    var quantity := last - first + 1;
    AllClear(taken, bound, p, quantity);
    FailsExactly(taken, bound, first, last, locks, port, after);
    assert FreeBlock(taken, bound, port, quantity);
    forall i: nat | port <= i < port + quantity ensures !taken[i] && !bound[i] { assert Free(taken, bound, i); }
  }

  lemma AllClear(taken: Bitmap, bound: Bitmap, p: nat, quantity: nat)
    requires p + quantity <= PORTS && forall i: nat :: p <= i < p + quantity ==> !taken[i] && !bound[i]
    ensures FreeBlock(taken, bound, p, quantity)
  {
  }

  /** Each time the lock is taken the scan gets through 17 ports, so that a block is reserved exactly when the
      least one ends within 17 times as many ports of the first. */
  lemma ReachesExactly(taken: Bitmap, bound: Bitmap, first: int, last: int, locks: nat, port: int, after: Bitmap, p: nat)
    requires 0 <= first <= last <= 65535
    requires Outcome(taken, bound, first, last, locks, port, after)
    requires LeastBlock(taken, bound, first, last - first + 1, p)
    ensures port != -1 <==> p + (last - first) - first < 17 * locks
    ensures port == -1 || port == p
  {
    hide FreeBlock, NoneBefore;
    if port != -1 { LeastIsUnique(taken, bound, first, last - first + 1, p, port); }
    LocksCover(first, p + (last - first), locks);
  }

  lemma LocksCover(first: nat, end: nat, locks: nat)
    requires first <= end
    ensures LocksFor(first, end) <= locks <==> end - first < 17 * locks
  {
  }

  lemma EnoughLocks(taken: Bitmap, bound: Bitmap, first: nat, quantity: nat, p: nat)
    requires quantity >= 1 && LeastBlock(taken, bound, first, quantity, p)
    ensures LocksFor(first, p + quantity - 1) <= LocksFor(first, PORTS - 1)
  {
  }

  /** The outcome is determined by the maps, the request and the locks: there is no second answer. */
  lemma OutcomeIsUnique(taken: Bitmap, bound: Bitmap, first: int, last: int, locks: nat,
                        port: int, after: Bitmap, port': int, after': Bitmap)
    requires Outcome(taken, bound, first, last, locks, port, after)
    requires Outcome(taken, bound, first, last, locks, port', after')
    ensures port == port' && after == after'
  {
    if RangeOK(first, last) && port >= 0 && port' >= 0 {
      LeastIsUnique(taken, bound, first, last - first + 1, port, port');
    }
  }

  /** Releasing what was reserved gives the old map back. */
  lemma ReleaseUndoes(taken: Bitmap, bound: Bitmap, first: int, last: int, locks: nat, port: int, after: Bitmap)
    requires Outcome(taken, bound, first, last, locks, port, after) && port != -1
    ensures RangeOK(port, port + last - first)
    ensures Cleared(after, port, port + last - first) == taken
  {
    var quantity := last - first + 1;
    assert Free(taken, bound, port);
    forall i: nat | i < PORTS ensures Cleared(after, port, port + last - first)[i] == taken[i] {
      if port <= i < port + quantity { assert Free(taken, bound, i); }
    }
  }

  // ---------- whole runs ----------

  datatype Block = Block(first: nat, last: nat)

  predicate Covers(b: Block, i: nat) { b.first <= i <= b.last }

  /** The map together with the blocks that callers hold, by a name for each call. */
  datatype State = State(taken: Bitmap, held: map<nat, Block>)

  datatype Op =
    | Reserve(id: nat, first: int, last: int, bound: Bitmap, locks: nat, port: int)
    | Release(id: nat)

  /** A caller reserves, or releases a block that it holds. */
  ghost predicate Step(s: State, op: Op, t: State) {
    match op
    case Reserve(id, first, last, bound, locks, port) =>
      && id !in s.held
      && Outcome(s.taken, bound, first, last, locks, port, t.taken)
      && t.held == if port < 0 then s.held else s.held[id := Block(port, port + last - first)]
    case Release(id) =>
      && id in s.held
      && var b := s.held[id];
      && t.taken == (if RangeOK(b.first, b.last) then Cleared(s.taken, b.first, b.last) else s.taken)
      && t.held == map k | k in s.held && k != id :: s.held[k]
  }

  /** The map holds exactly the ports of the held blocks, and no port is in two of them. */
  ghost predicate Ledger(s: State) {
    && (forall k | k in s.held :: RangeOK(s.held[k].first, s.held[k].last))
    && (forall i: nat | i < PORTS :: s.taken[i] <==> exists k :: k in s.held && Covers(s.held[k], i))
    && (forall k, l, i: nat | k in s.held && l in s.held && Covers(s.held[k], i) && Covers(s.held[l], i) :: k == l)
  }

  lemma ReserveKeepsLedger(s: State, op: Op, t: State)
    requires Ledger(s) && op.Reserve? && Step(s, op, t)
    ensures Ledger(t)
  {
    if op.port >= 0 {
      BlockIsFree(s.taken, op.bound, op.first, op.last, op.locks, op.port, t.taken);
      var b := Block(op.port, op.port + op.last - op.first);
      forall i: nat | i < PORTS
        ensures t.taken[i] <==> exists k :: k in t.held && Covers(t.held[k], i)
      {
        if Covers(b, i) { assert Covers(t.held[op.id], i); }
        if s.taken[i] {
          var k :| k in s.held && Covers(s.held[k], i);
          assert k in t.held && Covers(t.held[k], i);
        }
      }
      forall k, i: nat | k in s.held && Covers(s.held[k], i) ensures !Covers(b, i) {
        assert s.taken[i];
      }
    }
  }

  lemma BlockIsFree(taken: Bitmap, bound: Bitmap, first: int, last: int, locks: nat, port: int, after: Bitmap)
    requires Outcome(taken, bound, first, last, locks, port, after) && port >= 0
    ensures RangeOK(port, port + last - first)
    ensures forall i: nat | port <= i <= port + last - first :: !taken[i] && !bound[i]
    ensures forall i: nat | i < PORTS :: after[i] == (taken[i] || port <= i <= port + last - first)
  {
    assert Free(taken, bound, port);
    forall i: nat | port <= i <= port + last - first ensures !taken[i] && !bound[i] {
      assert Free(taken, bound, i);
    }
  }

  lemma ReleaseKeepsLedger(s: State, op: Op, t: State)
    requires Ledger(s) && op.Release? && Step(s, op, t)
    ensures Ledger(t)
  {
    var b := s.held[op.id];
    forall i: nat | i < PORTS
      ensures t.taken[i] <==> exists k :: k in t.held && Covers(t.held[k], i)
    {
      if s.taken[i] {
        var k :| k in s.held && Covers(s.held[k], i);
        if k != op.id { assert k in t.held && Covers(t.held[k], i) && !Covers(b, i); }
      }
    }
  }

  /** Along every run of reservations and releases no two holders ever share a port, and the map is what
      they hold; with nothing held it is empty again. */
  lemma {:induction false} RunKeepsLedger(states: seq<State>, ops: seq<Op>, n: nat)
    requires |states| == |ops| + 1 && n < |states|
    requires states[0].held == map[] && forall i :: 0 <= i < PORTS ==> !states[0].taken[i]
    requires forall j :: 0 <= j < |ops| ==> Step(states[j], ops[j], states[j + 1])
    ensures Ledger(states[n])
    ensures states[n].held == map[] ==> states[n].taken == states[0].taken
  {
    if n > 0 {
      RunKeepsLedger(states, ops, n - 1);
      if ops[n - 1].Reserve? {
        ReserveKeepsLedger(states[n - 1], ops[n - 1], states[n]);
      } else {
        ReleaseKeepsLedger(states[n - 1], ops[n - 1], states[n]);
      }
    }
  }

  // ---------- wrapping port numbers ----------

  /** C's remainder, which has the sign of the dividend. */
  function CRem(a: int, b: int): int
    requires b > 0
  {
    if a >= 0 then a % b else -((-a) % b)
  }

  /** stress_net_port_wraparound */
  function PortWraparound(port: int): int {
    var portRange := MAX_PORT - MIN_PORT + 1;
    MIN_PORT + CRem(CRem(port - MIN_PORT, portRange) + portRange, portRange)
  }

  predicate IsInt(x: int) { -0x8000_0000 <= x <= 0x7fff_ffff }

  /** The arithmetic stays within C's int exactly for ports from INT_MIN + 1024 up. */
  lemma NoOverflowExactly(port: int)
    requires IsInt(port)
    ensures var n := MAX_PORT - MIN_PORT + 1;
            (IsInt(port - MIN_PORT) && IsInt(CRem(port - MIN_PORT, n) + n) && IsInt(PortWraparound(port)))
            <==> port >= -0x8000_0000 + 1024
  {
    WrapsIntoRange(port, MIN_PORT);
    CRemIs(port - MIN_PORT, MAX_PORT - MIN_PORT + 1);
  }

  /** Every number, negative ones too, is taken to the one port of the range it is congruent to. */
  lemma WrapsIntoRange(port: int, p: int)
    requires 1024 <= p <= 65535
    ensures 1024 <= PortWraparound(port) <= 65535
    ensures PortWraparound(port) == p <==> (port - p) % 64512 == 0
  {
    var n := MAX_PORT - MIN_PORT + 1;
    var a := port - MIN_PORT;
    var r := a % n;
    CRemIs(a, n);
    if CRem(a, n) + n >= n { ModUnique(n, 1, CRem(a, n), CRem(a, n) + n); }
    assert PortWraparound(port) == MIN_PORT + r;
    var d := p - MIN_PORT;
    assert port - p == n * (a / n) + (r - d);
    ModAdd(n, a / n, r - d);
    if r < d { ModUnique(n, -1, r - d + n, r - d); } else { ModUnique(n, 0, r - d, r - d); }
  }

  lemma CRemIs(a: int, n: int)
    requires n > 0
    ensures CRem(a, n) == a % n || (CRem(a, n) < 0 && CRem(a, n) + n == a % n)
  {
    if a < 0 {
      var q, r := (-a) / n, (-a) % n;
      assert -a == n * q + r;
      if r == 0 { ModUnique(n, -q, 0, a); } else { ModUnique(n, -q - 1, n - r, a); }
    }
  }
}
