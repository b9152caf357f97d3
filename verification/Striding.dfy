/** What stress_prime64_get and stress_prime64_next_get are used for: striding through n places by a prime
    that does not divide n, a different one in every call. */
module Striding {
  import opened Arithmetic
  import opened LargePrimes
  import opened Primes
  import opened Residues
  import opened Widths

  // ---------- one call of stress_prime64_next_get ----------

  /** The values the static p can have. */
  predicate Kept(p: nat) { 3 <= p < TWO_64 && p % 2 == 1 }

  /** The number of tries from s before the 64-bit addition wraps around. */
  function Room(s: nat): nat
    requires s < TWO_64
  {
    (TWO_64 - 1 - s) / 2
  }

  /** No try succeeds: the branch that gives up. */
  ghost predicate GivesUp(n: nat, p: nat, limit: nat) { NoneGood(n, Start(p, n), limit) }

  /** Some try succeeds, but none before the addition wraps around. */
  ghost predicate Wraps(n: nat, p: nat, limit: nat)
    requires Kept(p)
  {
    && !GivesUp(n, p, limit)
    && var room := Room(Start(p, n)); NoneGood(n, Start(p, n), if limit < room then limit else room)
  }

  ghost predicate Rises(n: nat, p: nat, limit: nat)
    requires Kept(p)
  {
    !GivesUp(n, p, limit) && !Wraps(n, p, limit)
  }

  /** A call with the kept p and limit tries returns r. */
  ghost predicate Call(n: nat, p: nat, limit: nat, r: nat) {
    limit <= TRIES && Outcome(n, Start(p, n), limit, FLOOR, r)
  }

  lemma FirstTry(n: nat, s: nat, k: nat, limit: nat)
    requires FirstGood(n, s, k)
    ensures NoneGood(n, s, limit) <==> limit < k
  {
    hide Good;
    if limit >= k { assert Good(n, Candidate(s, k)); }
  }

  lemma Wrapped(s: nat, k: nat)
    requires s < TWO_64 && s % 2 == 1 && Room(s) < k <= TRIES
    ensures Candidate(s, k) == s + 2 * k - TWO_64
  {
    ModUnique(TWO_64, 1, s + 2 * k - TWO_64, s + 2 * k);
  }

  /** What a call returns is decided by n, the kept p and the number of tries: 1009 if no try succeeds; a
      number below 4000 if the first to succeed lies behind the wrap-around, which takes a p within twice the
      tries of 2^64; and otherwise a number above the start. */
  lemma CallExactly(n: nat, p: nat, limit: nat, r: nat)
    requires Kept(p) && Call(n, p, limit, r)
    ensures Kept(r)
    ensures GivesUp(n, p, limit) ==> r == FLOOR
    ensures Wraps(n, p, limit) ==> r < 2 * TRIES && r < p && p + 2 * limit > TWO_64 && Good(n, r)
    ensures Rises(n, p, limit) ==> r > Start(p, n) && Good(n, r)
  {
    hide Good, Candidate, OddOf, NoneGood;
    var s := Start(p, n);
    StartIsOdd(p, n);
    if Finds(n, s, limit, r) {
      var k: nat :| k <= limit && FirstGood(n, s, k) && r == Candidate(s, k);
      var room := Room(s);
      FirstTry(n, s, k, limit);
      FirstTry(n, s, k, if limit < room then limit else room);
      if k <= room { NoWrap(s, k); } else { Wrapped(s, k); }
      GoodIsKept(n, r);
    }
  }

  lemma StartIsOdd(p: nat, n: nat)
    requires Kept(p)
    ensures Kept(Start(p, n)) && (Start(p, n) > TWO_60 ==> Start(p, n) == p)
  {
  }

  lemma GoodIsKept(n: nat, r: nat)
    requires Good(n, r) && r < TWO_64 && r % 2 == 1
    ensures Kept(r)
  {
    FoundIsOdd(r);
  }

  // ---------- whether the result is above n ----------

  /** A number from s up to t that a search would return. */
  ghost predicate GoodUpTo(n: nat, s: nat, t: nat) {
    exists q: nat | s < q <= t :: Good(n, q)
  }

  /** The comment promises a prime above n.  What is found without wrapping around is above n exactly if no
      good number up to n is left.  That is sure for n < 2^60 and for n up to the kept p, and it is sure to
      fail for n at the end of the tries or beyond; only in the window between the two do the primes decide. */
  lemma NextAboveExactly(n: nat, p: nat, limit: nat, r: nat)
    requires Kept(p) && limit <= TRIES && Finds(n, Start(p, n), limit, r)
    ensures !Wraps(n, p, limit) ==> (r > n <==> !GoodUpTo(n, Start(p, n), n))
    ensures n < TWO_60 || n <= p ==> !GoodUpTo(n, Start(p, n), n)
    ensures n >= Start(p, n) + 2 * limit ==> r <= n
    ensures Wraps(n, p, limit) ==> r < 2 * TRIES
  {
    hide OddOf, Good, Candidate, GoodUpTo, NoneGood;
    var s := Start(p, n);
    CallExactly(n, p, limit, r);
    StartIsOdd(p, n);
    NothingAbove(n, s);
    OddAbove(n);
    var k: nat :| k <= limit && FirstGood(n, s, k) && r == Candidate(s, k);
    FirstTry(n, s, k, limit);
    CandidateAtMost(s, k);
    if !Wraps(n, p, limit) {
      if r <= n {
        GoodFound(n, s, r);
      } else {
        NotWrapped(s, k);
        NoneGoodUpTo(n, s, k - 1, r);
      }
    }
  }

  lemma NothingAbove(n: nat, s: nat)
    ensures n <= s ==> !GoodUpTo(n, s, n)
  {
  }

  lemma OddAbove(n: nat)
    ensures n < TWO_60 ==> OddOf(n) >= n
  {
    if n < TWO_60 { StartBelow60(n); }
  }

  lemma CandidateAtMost(s: nat, k: nat)
    ensures Candidate(s, k) <= s + 2 * k
  {
  }

  lemma NotWrapped(s: nat, k: nat)
    requires s < TWO_64 && s % 2 == 1 && k <= TRIES && Candidate(s, k) > s
    ensures Candidate(s, k) == s + 2 * k < TWO_64
  {
    if k <= Room(s) { NoWrap(s, k); } else { Wrapped(s, k); }
  }

  lemma GoodFound(n: nat, s: nat, r: nat)
    requires s < r <= n && Good(n, r)
    ensures GoodUpTo(n, s, n)
  {
  }

  lemma NoneGoodUpTo(n: nat, s: nat, k: nat, r: nat)
    requires 3 <= s && s % 2 == 1 && r == s + 2 * (k + 1) < TWO_64 && NoneGood(n, s, k)
    ensures forall t: nat | t < r :: !GoodUpTo(n, s, t)
  {
    hide Good, NoneGood;
    forall q: nat | s < q < r ensures !Good(n, q) { NotGood(n, s, k, q); }
  }

  lemma NotGood(n: nat, s: nat, k: nat, q: nat)
    requires 3 <= s < q < s + 2 * (k + 1) < TWO_64 && s % 2 == 1 && NoneGood(n, s, k)
    ensures !Good(n, q)
  {
    hide IsPrime, Candidate;
    if q % 2 == 0 {
      EvenNotPrime(q);
    } else {
      var m := (q - s) / 2;
      assert q == s + 2 * m && 1 <= m <= k;
      NoWrap(s, m);
      assert !Good(n, Candidate(s, m));
    }
  }

  // ---------- runs of calls ----------

  /** What the finder holds before call i of a run. */
  function Before(rs: seq<nat>, p: nat, i: nat): nat
    requires i <= |rs|
  {
    if i == 0 then p else rs[i - 1]
  }

  /** Successive calls of the one finder, each with its n and its number of tries. */
  ghost predicate Run(ns: seq<nat>, limits: seq<nat>, rs: seq<nat>, p: nat) {
    && Kept(p) && |ns| == |limits| == |rs|
    && forall i: nat | i < |rs| :: Call(ns[i], Before(rs, p, i), limits[i], rs[i])
  }

  lemma {:induction false} RunIsKept(ns: seq<nat>, limits: seq<nat>, rs: seq<nat>, p: nat, i: nat)
    requires Run(ns, limits, rs, p) && i <= |rs|
    ensures Kept(Before(rs, p, i))
  {
    hide Call, Kept;
    if i > 0 {
      RunIsKept(ns, limits, rs, p, i - 1);
      CallExactly(ns[i - 1], Before(rs, p, i - 1), limits[i - 1], rs[i - 1]);
    }
  }

  /** Call i gives up, wraps around, or does neither. */
  ghost predicate GivesUpAt(ns: seq<nat>, limits: seq<nat>, rs: seq<nat>, p: nat, i: nat)
    requires |ns| == |limits| == |rs| && i < |rs|
  {
    GivesUp(ns[i], Before(rs, p, i), limits[i])
  }

  ghost predicate WrapsAt(ns: seq<nat>, limits: seq<nat>, rs: seq<nat>, p: nat, i: nat)
    requires Run(ns, limits, rs, p) && i < |rs|
  {
    RunIsKept(ns, limits, rs, p, i);
    Wraps(ns[i], Before(rs, p, i), limits[i])
  }

  /** Call i finds a number before the wrap-around, or gives up when the kept number is less than 1009. */
  ghost predicate Climbs(ns: seq<nat>, limits: seq<nat>, rs: seq<nat>, p: nat, i: nat)
    requires Run(ns, limits, rs, p) && i < |rs|
  {
    if GivesUpAt(ns, limits, rs, p, i) then Before(rs, p, i) < FLOOR else !WrapsAt(ns, limits, rs, p, i)
  }

  /** One call of a run against the one before it. */
  lemma RunStep(ns: seq<nat>, limits: seq<nat>, rs: seq<nat>, p: nat, i: nat)
    requires Run(ns, limits, rs, p) && i < |rs|
    ensures rs[i] > Before(rs, p, i) <==> Climbs(ns, limits, rs, p, i)
    ensures rs[i] == Before(rs, p, i) <==> GivesUpAt(ns, limits, rs, p, i) && Before(rs, p, i) == FLOOR
  {
    hide Call, Kept, GivesUp, Good, OddOf;
    RunIsKept(ns, limits, rs, p, i);
    CallExactly(ns[i], Before(rs, p, i), limits[i], rs[i]);
  }

  /** The results grow strictly, for whatever n, as long as no call gives up or wraps around. */
  lemma {:induction false} RunDistinct(ns: seq<nat>, limits: seq<nat>, rs: seq<nat>, p: nat, i: nat, j: nat)
    requires Run(ns, limits, rs, p) && i < j < |rs|
    requires forall k: nat | i < k <= j :: !GivesUpAt(ns, limits, rs, p, k) && !WrapsAt(ns, limits, rs, p, k)
    ensures rs[i] < rs[j]
    decreases j
  {
    hide Run, GivesUpAt, WrapsAt;
    RunLength(ns, limits, rs, p);
    RunStep(ns, limits, rs, p, j);
    if i < j - 1 { RunDistinct(ns, limits, rs, p, i, j - 1); }
  }

  lemma RunLength(ns: seq<nat>, limits: seq<nat>, rs: seq<nat>, p: nat)
    requires Run(ns, limits, rs, p)
    ensures |ns| == |limits| == |rs|
  {
  }

  predicate Grows(rs: seq<nat>) { forall i, j | 0 <= i < j < |rs| :: rs[i] < rs[j] }

  predicate StepsAt(rs: seq<nat>, k: nat)
    requires 1 <= k < |rs|
  {
    rs[k - 1] < rs[k]
  }

  predicate Steps(rs: seq<nat>) { forall k: nat | 1 <= k < |rs| :: StepsAt(rs, k) }

  lemma {:induction false} StepsReach(rs: seq<nat>, i: nat, j: nat)
    requires Steps(rs) && i < j < |rs|
    ensures rs[i] < rs[j]
  {
    assert StepsAt(rs, j);
    if i < j - 1 { StepsReach(rs, i, j - 1); }
  }

  /** Strictly increasing from neighbour to neighbour is strictly increasing. */
  lemma GrowsByStep(rs: seq<nat>)
    ensures Grows(rs) <==> Steps(rs)
  {
    if Steps(rs) {
      forall i: nat, j: nat | i < j < |rs| ensures rs[i] < rs[j] { StepsReach(rs, i, j); }
    }
  }

  /** A run of any kind grows exactly if every call after the first climbs. */
  lemma RunGrowsExactly(ns: seq<nat>, limits: seq<nat>, rs: seq<nat>, p: nat)
    requires Run(ns, limits, rs, p)
    ensures Grows(rs) <==> forall j: nat | 1 <= j < |rs| :: Climbs(ns, limits, rs, p, j)
  {
    hide Run, Climbs, Grows;
    GrowsByStep(rs);
    forall j: nat | 1 <= j < |rs| ensures StepsAt(rs, j) <==> Climbs(ns, limits, rs, p, j) {
      RunStep(ns, limits, rs, p, j);
    }
  }

  /** A run from 1009 or more in which no call wraps around. */
  ghost predicate Plain(ns: seq<nat>, limits: seq<nat>, rs: seq<nat>, p: nat) {
    Run(ns, limits, rs, p) && p >= FLOOR && forall i: nat | i < |rs| :: !WrapsAt(ns, limits, rs, p, i)
  }

  lemma {:induction false} PlainAboveFloor(ns: seq<nat>, limits: seq<nat>, rs: seq<nat>, p: nat, i: nat)
    requires Plain(ns, limits, rs, p) && i < |rs|
    ensures Before(rs, p, i) >= FLOOR && rs[i] >= FLOOR
    ensures rs[i] == FLOOR <==> GivesUpAt(ns, limits, rs, p, i)
  {
    hide Run, GivesUp, Wraps, Kept, Good, OddOf, Call;
    if i > 0 { PlainAboveFloor(ns, limits, rs, p, i - 1); }
    PlainCall(ns, limits, rs, p, i);
  }

  lemma PlainCall(ns: seq<nat>, limits: seq<nat>, rs: seq<nat>, p: nat, i: nat)
    requires Plain(ns, limits, rs, p) && i < |rs|
    ensures |ns| == |limits| == |rs|
    ensures GivesUpAt(ns, limits, rs, p, i) ==> rs[i] == FLOOR
    ensures !GivesUpAt(ns, limits, rs, p, i) ==> rs[i] > Before(rs, p, i)
  {
    hide GivesUp, Kept, Good, OddOf, Call;
    assert !WrapsAt(ns, limits, rs, p, i);
    RunIsKept(ns, limits, rs, p, i);
    CallExactly(ns[i], Before(rs, p, i), limits[i], rs[i]);
  }

  /** "Keep the primes different each call", on what there is before the calls: two successive results are
      equal exactly if the first call gives up and so does the second, which then starts from 1009; and the
      results grow from call to call exactly if no call after the first gives up. */
  lemma RunDiffersExactly(ns: seq<nat>, limits: seq<nat>, rs: seq<nat>, p: nat)
    requires Plain(ns, limits, rs, p)
    ensures |ns| == |limits| == |rs|
    ensures forall j: nat | 1 <= j < |rs| ::
              rs[j] == rs[j - 1] <==> GivesUpAt(ns, limits, rs, p, j - 1) && GivesUp(ns[j], FLOOR, limits[j])
    ensures Grows(rs) <==> forall j: nat | 1 <= j < |rs| :: !GivesUpAt(ns, limits, rs, p, j)
  {
    hide Run, GivesUp, WrapsAt, Climbs, GivesUpAt, Grows;
    RunLength(ns, limits, rs, p);
    RunGrowsExactly(ns, limits, rs, p);
    forall j: nat | 1 <= j < |rs| ensures Climbs(ns, limits, rs, p, j) <==> !GivesUpAt(ns, limits, rs, p, j) {
      PlainPair(ns, limits, rs, p, j);
    }
    forall j: nat | 1 <= j < |rs|
      ensures rs[j] == rs[j - 1] <==> GivesUpAt(ns, limits, rs, p, j - 1) && GivesUp(ns[j], FLOOR, limits[j])
    {
      PlainPair(ns, limits, rs, p, j);
    }
  }

  lemma PlainPair(ns: seq<nat>, limits: seq<nat>, rs: seq<nat>, p: nat, j: nat)
    requires Plain(ns, limits, rs, p) && 1 <= j < |rs|
    ensures |ns| == |limits| == |rs|
    ensures Climbs(ns, limits, rs, p, j) <==> !GivesUpAt(ns, limits, rs, p, j)
    ensures rs[j] == rs[j - 1] <==> GivesUpAt(ns, limits, rs, p, j - 1) && GivesUp(ns[j], FLOOR, limits[j])
  {
    hide Run, GivesUp;
    RunLength(ns, limits, rs, p);
    PlainAboveFloor(ns, limits, rs, p, j - 1);
    PlainAboveFloor(ns, limits, rs, p, j);
    RunStep(ns, limits, rs, p, j);
  }

  /** After a call that gives up the finder is as new: the calls that follow are a run from 1009. */
  lemma GiveUpRestarts(ns: seq<nat>, limits: seq<nat>, rs: seq<nat>, p: nat, i: nat)
    requires Run(ns, limits, rs, p) && i < |rs| && GivesUpAt(ns, limits, rs, p, i)
    ensures Run(ns[i + 1..], limits[i + 1..], rs[i + 1..], FLOOR)
  {
    hide Call, GivesUp;
    RunIsKept(ns, limits, rs, p, i);
    CallExactly(ns[i], Before(rs, p, i), limits[i], rs[i]);
    var us, ls, vs := ns[i + 1..], limits[i + 1..], rs[i + 1..];
    forall k: nat | k < |vs| ensures Call(us[k], Before(vs, FLOOR, k), ls[k], vs[k]) {
      assert Before(vs, FLOOR, k) == Before(rs, p, i + 1 + k);
      assert Call(ns[i + 1 + k], Before(rs, p, i + 1 + k), limits[i + 1 + k], rs[i + 1 + k]);
    }
  }

  lemma ZeroNeverServed(s: nat, limit: nat)
    ensures NoneGood(0, s, limit)
  {
    hide Candidate;
    forall m: nat | 1 <= m <= limit ensures !Good(0, Candidate(s, m)) {
      if Candidate(s, m) > 0 { Multiple(Candidate(s, m), 0); }
    }
  }

  /** Two calls with n == 0 return the same number. */
  lemma TwoZeros()
    ensures Run([0, 0], [TRIES, TRIES], [FLOOR, FLOOR], FLOOR)
  {
    hide NoneGood, Finds;
    ZeroNeverServed(Start(FLOOR, 0), TRIES);
    assert Call(0, FLOOR, TRIES, FLOOR);
  }

  // ---------- striding ----------

  /** Place t is reached from i and from no other. */
  ghost predicate OnlyFrom(n: nat, p: nat, t: nat, i: nat)
    requires n > 0
  {
    i < n && forall j: nat | j < n :: Stride(n, p, j) == t <==> j == i
  }

  ghost predicate VisitedOnce(n: nat, p: nat, t: nat)
    requires n > 0
  {
    exists i: nat :: OnlyFrom(n, p, t, i)
  }

  /** Striding by p visits every one of 0 .. n - 1 exactly once. */
  ghost predicate Permutes(n: nat, p: nat)
    requires n > 0
  {
    forall t: nat | t < n :: VisitedOnce(n, p, t)
  }

  /** A prime visits every place exactly if it does not divide n; otherwise place 1 is never reached. */
  lemma PermutesExactly(n: nat, p: nat)
    requires n > 0 && IsPrime(p)
    ensures Permutes(n, p) <==> !Divides(p, n)
  {
    hide Stride, Divides, IsPrime;
    PrimeAtLeastTwo(p);
    if Divides(p, n) {
      DivisorAtMost(p, n);
      NotVisited(n, p);
    } else {
      forall t: nat | t < n ensures VisitedOnce(n, p, t) {
        var i := StridePermutes(n, p, t);
        assert OnlyFrom(n, p, t, i);
      }
    }
  }

  lemma NotVisited(n: nat, p: nat)
    requires n > 0 && p >= 2 && Divides(p, n)
    ensures !VisitedOnce(n, p, 1)
  {
    forall i: nat ensures !OnlyFrom(n, p, 1, i) {
      StridesByDivisor(n, p, i);
    }
  }

  lemma StridesByDivisor(n: nat, p: nat, i: nat)
    requires n > 0 && p >= 2 && Divides(p, n)
    ensures Stride(n, p, i) != 1
  {
    ModOfMod(i * p, n, p);
    Multiple(p, i);
    assert i * p == p * i;
    ModUnique(p, 0, 1, 1);
  }

  /** What stress_prime64_next_get returns is prime.  It does not divide n, and striding by it visits every
      place, exactly unless no try succeeds and n is a multiple of 1009. */
  lemma NextStridesExactly(n: nat, p: nat, limit: nat, r: nat)
    requires n > 0 && Kept(p) && Call(n, p, limit, r)
    ensures IsPrime(r)
    ensures Divides(r, n) <==> GivesUp(n, p, limit) && Divides(FLOOR, n)
    ensures Permutes(n, r) <==> !(GivesUp(n, p, limit) && Divides(FLOOR, n))
  {
    hide Permutes, OddOf, NoneGood, Candidate, IsPrime, Divides;
    CallExactly(n, p, limit, r);
    Prime1009();
    if !GivesUp(n, p, limit) { GoodParts(n, r); }
    PermutesExactly(n, r);
  }

  lemma GoodParts(n: nat, r: nat)
    requires Good(n, r)
    ensures r > 0 && !Divides(r, n) && IsPrime(r)
  {
  }

  lemma Residue1009(d: nat)
    requires 2 <= d < 32
    ensures 1009 % d != 0
  {
    var q := if d < 8 then [504, 336, 252, 201, 168, 144][d - 2]
             else if d < 16 then [126, 112, 100, 91, 84, 77, 72, 67][d - 8]
             else if d < 24 then [63, 59, 56, 53, 50, 48, 45, 43][d - 16]
             else [42, 40, 38, 37, 36, 34, 33, 32][d - 24];
    ModUnique(d, q, 1009 - d * q, 1009);
  }

  lemma Prime1009()
    ensures IsPrime(FLOOR)
  {
    forall d: nat | 2 <= d < 32 ensures !Divides(d, 1009) {
      Residue1009(d);
    }
    IsqrtBelow(1009, 32);
    NoneMeansPrime(1009, 32);
  }

  /** With the continue flag down a call for 1009 places returns 1009, and place 1 is never visited. */
  lemma StrideStuck()
    ensures Call(1009, FLOOR, 0, 1009) && !Permutes(1009, 1009)
  {
    hide Permutes, IsPrime;
    Prime1009();
    PermutesExactly(1009, 1009);
  }

  /** The same for stress_prime64_get: the constant it gives up with is prime, so only one n fails. */
  lemma GetStridesExactly(n: nat, limit: nat, r: nat)
    requires 0 < n < TWO_64 && Outcome(n, Start(FLOOR, n), limit, GIVE_UP, r)
    ensures IsPrime(r)
    ensures Divides(r, n) <==> NoneGood(n, Start(FLOOR, n), limit) && n == GIVE_UP
    ensures Permutes(n, r) <==> !(NoneGood(n, Start(FLOOR, n), limit) && n == GIVE_UP)
  {
    hide Permutes, OddOf, Candidate, IsPrime, Divides, Good, NoneGood;
    var s := Start(FLOOR, n);
    PrimeGiveUp();
    MultipleOfGiveUp(n);
    if Finds(n, s, limit, r) {
      var k: nat :| k <= limit && FirstGood(n, s, k) && r == Candidate(s, k);
      FirstTry(n, s, k, limit);
      GoodParts(n, r);
    }
    PermutesExactly(n, r);
  }

  lemma MultipleOfGiveUp(n: nat)
    requires 0 < n < TWO_64
    ensures Divides(GIVE_UP, n) <==> n == GIVE_UP
  {
  }

  /** With the continue flag down the search for as many places as the constant is large returns it. */
  lemma GetStuck()
    ensures Outcome(GIVE_UP, Start(FLOOR, GIVE_UP), 0, GIVE_UP, GIVE_UP) && !Permutes(GIVE_UP, GIVE_UP)
  {
    hide Permutes, IsPrime;
    PrimeGiveUp();
    PermutesExactly(GIVE_UP, GIVE_UP);
  }
}
