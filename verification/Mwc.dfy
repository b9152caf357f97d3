/** The global multiply-with-carry generator with its caches for narrow draws. */
module Mwc {
  import opened Arithmetic
  import opened Lehmer
  import opened Widths

  const A_Z: nat := 36969
  const A_W: nat := 18000
  const SEED_W: u32 := 521288629
  const SEED_Z: u32 := 362436069

  // ---------- the 32-bit stream ----------

  datatype Seeds = Seeds(z: u32, w: u32)

  function Advance(s: Seeds): Seeds {
    StepFits(A_Z, s.z);
    StepFits(A_W, s.w);
    Seeds(Step(A_Z, s.z), Step(A_W, s.w))
  }

  /** (z << 16) + w in 32 bits. */
  function Output(s: Seeds): u32 {
    ((s.z % TWO_16) * TWO_16 + s.w) % TWO_32
  }

  function After(s: Seeds, n: nat): Seeds {
    if n == 0 then s else Advance(After(s, n - 1))
  }

  /** The n-th word of the stream that starts from s. */
  function WordAt(s: Seeds, n: nat): u32 { Output(After(s, n + 1)) }

  lemma FirstWords(s: Seeds)
    ensures After(s, 1) == Advance(s) && After(s, 2) == Advance(Advance(s))
    ensures WordAt(s, 0) == Output(Advance(s)) && WordAt(s, 1) == Output(Advance(Advance(s)))
  {
    assert After(s, 0) == s;
  }

  /** (high << 32) | low */
  function Join(high: u32, low: u32): (r: nat)
    ensures r < TWO_32 * TWO_32
  {
    high * TWO_32 + low
  }

  /** Both halves in closed form. */
  lemma {:induction false} AfterIterates(s: Seeds, n: nat)
    ensures After(s, n).z == Iterate(A_Z, s.z, n) && After(s, n).w == Iterate(A_W, s.w, n)
  {
    if n > 0 { AfterIterates(s, n - 1); }
  }

  /** z is congruent to 36969^n z0 modulo 36969 * 2^16 - 1, w to 18000^n w0 modulo 18000 * 2^16 - 1, and
      each of the two is zero only if its seed was. */
  lemma {:induction false} StreamClosedForm(s: Seeds, n: nat)
    ensures After(s, n).z % 2422800383 == (Pow(36969, n) * s.z) % 2422800383
    ensures After(s, n).w % 1179647999 == (Pow(18000, n) * s.w) % 1179647999
    ensures After(s, n).z == 0 <==> s.z == 0
    ensures After(s, n).w == 0 <==> s.w == 0
  {
    AfterIterates(s, n);
    ClosedForm(A_Z, s.z, n);
    ClosedForm(A_W, s.w, n);
    if n > 0 {
      StreamClosedForm(s, n - 1);
      ZeroOnlyFromZero(A_Z, After(s, n - 1).z);
      ZeroOnlyFromZero(A_W, After(s, n - 1).w);
    }
  }

  /** Seeds inside the cycle stay inside it and follow it exactly. */
  lemma StreamExactForm(s: Seeds, n: nat)
    ensures 0 < s.z < 2422800383 ==> After(s, n).z == (Pow(36969, n) * s.z) % 2422800383
    ensures 0 < s.w < 1179647999 ==> After(s, n).w == (Pow(18000, n) * s.w) % 1179647999
  {
    AfterIterates(s, n);
    if 0 < s.z < 2422800383 { ExactForm(A_Z, s.z, n); }
    if 0 < s.w < 1179647999 { ExactForm(A_W, s.w, n); }
  }

  /** Only the low half of z reaches a word: the rest is beyond 32 bits. */
  lemma OutputIs(s: Seeds)
    ensures Output(s) == (65536 * s.z + s.w) % 0x1_0000_0000
  {
    var q := s.z / 65536;
    assert 65536 * s.z + s.w == TWO_32 * q + ((s.z % 65536) * 65536 + s.w);
    ModAdd(TWO_32, q, (s.z % 65536) * 65536 + s.w);
  }

  /** The words in closed form, from the seeds alone. */
  lemma WordClosedForm(s: Seeds, n: nat)
    requires 0 < s.z < 2422800383 && 0 < s.w < 1179647999
    ensures WordAt(s, n) == (65536 * ((Pow(36969, n + 1) * s.z) % 2422800383)
                             + (Pow(18000, n + 1) * s.w) % 1179647999) % 0x1_0000_0000
  {
    hide Output, After, Pow;
    StreamExactForm(s, n + 1);
    OutputIs(After(s, n + 1));
  }

  /** A word and its w half determine z modulo 2^16, and nothing more of z. */
  lemma WordShowsLowHalf(s: Seeds, t: Seeds)
    requires s.w == t.w
    ensures Output(s) == Output(t) <==> s.z % 65536 == t.z % 65536
  {
    SubtractWord(s.z % 65536, s.w);
    SubtractWord(t.z % 65536, s.w);
  }

  /** The low half of z by subtracting w again. */
  lemma SubtractWord(low: nat, w: u32)
    requires low < 65536
    ensures ((low * 65536 + w) % TWO_32 + TWO_32 - w) % TWO_32 == low * 65536
  {
    var x := low * 65536 + w;
    var q := x / TWO_32;
    ModUnique(TWO_32, 1 - q, low * 65536, x % TWO_32 + TWO_32 - w);
  }

  /** The two halves of a 64-bit draw. */
  lemma JoinParts(high: u32, low: u32)
    ensures Join(high, low) / 0x1_0000_0000 == high && Join(high, low) % 0x1_0000_0000 == low
  {
    ModUnique(TWO_32, high, low, Join(high, low));
  }

  /** The first words from the default seeds. */
  lemma KnownWords()
    ensures var s := Seeds(SEED_Z, SEED_W);
            WordAt(s, 0) == 820856226 && WordAt(s, 1) == 2331188998 && WordAt(s, 2) == 4033440000
  {
    var s := Seeds(SEED_Z, SEED_W);
    var s1, s2, s3 := Seeds(812916871, 275137954), Seeds(307853267, 320872198), Seeds(1134028772, 142960896);
    assert After(s, 1) == s1 by { assert After(s, 0) == s; }
    assert After(s, 2) == s2 by { assert Advance(s1) == s2; }
    assert After(s, 3) == s3 by { assert Advance(s2) == s3; }
    assert WordAt(s, 0) == Output(s1) && WordAt(s, 1) == Output(s2) && WordAt(s, 2) == Output(s3);
  }

  /** The states under which the generator stands still. */
  lemma StandsStill(s: Seeds)
    ensures Advance(s) == s <==> s.z in {0, 2422800383} && s.w in {0, 1179647999}
  {
    FixedPoints(A_Z, s.z, 61892, 34913);
    FixedPoints(A_W, s.w, 18704, 5137);
  }

  lemma StuckHalf(a: nat, x: u32)
    requires a == A_Z || a == A_W
    ensures Step(a, x) % Modulus(a) == 0 <==> x % Modulus(a) == 0
  {
    StuckExactly(a, x);
    RemIsMod(Step(a, x), Modulus(a));
    RemIsMod(x, Modulus(a));
  }

  /** A half that is a multiple of its modulus is 0 or the modulus from the first step on. */
  lemma MultipleAfterOneStep(a: nat, x: u32)
    requires a == A_Z || a == A_W
    ensures x % Modulus(a) == 0 ==> Step(a, x) == 0 || Step(a, x) == Modulus(a)
  {
    var y := Step(a, x);
    StuckHalf(a, x);
    assert y < 2 * Modulus(a);
    if x % Modulus(a) == 0 && y >= Modulus(a) {
      ModUnique(Modulus(a), 1, y - Modulus(a), y);
    }
  }

  lemma {:induction false} MultiplesStay(s: Seeds, n: nat)
    ensures After(s, n).z % 2422800383 == 0 <==> s.z % 2422800383 == 0
    ensures After(s, n).w % 1179647999 == 0 <==> s.w % 1179647999 == 0
  {
    if n > 0 {
      MultiplesStay(s, n - 1);
      StuckHalf(A_Z, After(s, n - 1).z);
      StuckHalf(A_W, After(s, n - 1).w);
    }
  }

  ghost predicate StillAfter(s: Seeds, n: nat) { Advance(After(s, n)) == After(s, n) }

  /** The seeds from which the generator ever comes to stand still: not only the all-zero seed. */
  lemma EverStandsStill(s: Seeds)
    ensures (exists n: nat :: StillAfter(s, n)) <==>
              s.z % 2422800383 == 0 && s.w % 1179647999 == 0
  {
    if s.z % 2422800383 == 0 && s.w % 1179647999 == 0 {
      MultipleAfterOneStep(A_Z, s.z);
      MultipleAfterOneStep(A_W, s.w);
      assert After(s, 1) == Advance(After(s, 0));
      StandsStill(After(s, 1));
      assert StillAfter(s, 1);
    }
    forall n: nat | StillAfter(s, n)
      ensures s.z % 2422800383 == 0 && s.w % 1179647999 == 0
    {
      StandsStill(After(s, n));
      MultiplesStay(s, n);
    }
  }

  // ---------- narrow draws ----------

  datatype Width = W1 | W8 | W16 | W32

  /** How many values of a width one 32-bit word holds, and the number of values of the width. */
  function PerWord(d: Width): nat {
    match d case W1 => 32 case W8 => 4 case W16 => 2 case W32 => 1
  }

  function Base(d: Width): nat {
    match d case W1 => 2 case W8 => 0x100 case W16 => TWO_16 case W32 => TWO_32
  }

  /** The word of one width: how many values are left in it, and the word shifted so far. */
  datatype Cache = Cache(left: nat, saved: u32)

  datatype State = State(seeds: Seeds, c1: Cache, c8: Cache, c16: Cache)

  function CacheOf(s: State, d: Width): Cache {
    match d case W1 => s.c1 case W8 => s.c8 case W16 => s.c16 case W32 => Cache(0, 0)
  }

  function SetCache(s: State, d: Width, c: Cache): State {
    match d case W1 => s.(c1 := c) case W8 => s.(c8 := c) case W16 => s.(c16 := c) case W32 => s
  }

  function Flushed(seeds: Seeds): State { State(seeds, Cache(0, 0), Cache(0, 0), Cache(0, 0)) }

  /** One call of stress_mwc1, 8, 16 or 32: the next state ... */
  function Next(s: State, d: Width): State {
    var c := CacheOf(s, d);
    if c.left > 0 then SetCache(s, d, Cache(c.left - 1, c.saved / Base(d)))
    else
      var seeds := Advance(s.seeds);
      SetCache(s.(seeds := seeds), d, Cache(PerWord(d) - 1, Output(seeds)))
  }

  /** ... and the value returned. */
  function Value(s: State, d: Width): nat {
    var c := CacheOf(s, d);
    if c.left > 0 then (c.saved / Base(d)) % Base(d) else Output(Advance(s.seeds)) % Base(d)
  }

  function Run(s: State, calls: seq<Width>): State {
    if calls == [] then s else Next(Run(s, calls[..|calls| - 1]), calls[|calls| - 1])
  }

  // ---------- what the calls must return, read off the sequence of calls alone ----------

  /** How many calls of width d there are. */
  function Count(calls: seq<Width>, d: Width): nat {
    if calls == [] then 0
    else Count(calls[..|calls| - 1], d) + if calls[|calls| - 1] == d then 1 else 0
  }

  /** A call draws a word exactly if the previous words of its width are used up. */
  predicate Draws(before: seq<Width>, d: Width) { Count(before, d) % PerWord(d) == 0 }

  /** The number of words drawn by the calls. */
  function Drawn(calls: seq<Width>): nat {
    if calls == [] then 0
    else
      var before, d := calls[..|calls| - 1], calls[|calls| - 1];
      Drawn(before) + if Draws(before, d) then 1 else 0
  }

  /** Which word width d drew last; 0 if none. */
  function LastDraw(calls: seq<Width>, d: Width): nat {
    if calls == [] then 0
    else
      var before, e := calls[..|calls| - 1], calls[|calls| - 1];
      if e == d && Draws(before, d) then Drawn(before) else LastDraw(before, d)
  }

  /** Digit i of a word in a base, and the word without its i low digits. */
  function Shifted(x: nat, base: nat, i: nat): nat
    requires base > 0
  {
    if i == 0 then x else Shifted(x, base, i - 1) / base
  }

  function Digit(x: nat, base: nat, i: nat): nat
    requires base > 0
  {
    Shifted(x, base, i) % base
  }

  /** The value that a call of width d must return after the calls before it: the next digit, lowest
      first, of the word its own width drew last, or digit 0 of a new word. */
  function Expected(seeds: Seeds, before: seq<Width>, d: Width): nat {
    var i := Count(before, d) % PerWord(d);
    Digit(WordAt(seeds, if i == 0 then Drawn(before) else LastDraw(before, d)), Base(d), i)
  }

  // ---------- the caches refine it ----------

  ghost predicate CacheOK(seeds: Seeds, calls: seq<Width>, c: Cache, d: Width) {
    var i := Count(calls, d) % PerWord(d);
    && c.left == (if i == 0 then 0 else PerWord(d) - i)
    && (i > 0 ==> c.saved == Shifted(WordAt(seeds, LastDraw(calls, d)), Base(d), i - 1))
  }

  ghost predicate Tracks(seeds: Seeds, calls: seq<Width>, s: State) {
    && s.seeds == After(seeds, Drawn(calls))
    && forall d :: CacheOK(seeds, calls, CacheOf(s, d), d)
  }

  lemma CountNext(n: nat, k: nat)
    requires k > 0
    ensures (n + 1) % k == if n % k + 1 == k then 0 else n % k + 1
  {
    if n % k + 1 == k {
      ModUnique(k, n / k + 1, 0, n + 1);
    } else {
      ModUnique(k, n / k, n % k + 1, n + 1);
    }
  }

  lemma CallAppended(before: seq<Width>, d: Width, e: Width)
    ensures var calls := before + [d];
            && Count(calls, e) == Count(before, e) + (if e == d then 1 else 0)
            && Drawn(calls) == Drawn(before) + (if Draws(before, d) then 1 else 0)
            && LastDraw(calls, e) == (if e == d && Draws(before, d) then Drawn(before) else LastDraw(before, e))
  {
    var calls := before + [d];
    assert calls[..|calls| - 1] == before && calls[|calls| - 1] == d;
  }

  lemma CacheNext(seeds: Seeds, before: seq<Width>, s: State, d: Width, e: Width)
    requires Tracks(seeds, before, s)
    ensures CacheOK(seeds, before + [d], CacheOf(Next(s, d), e), e)
  {
    CallAppended(before, d, e);
    CountNext(Count(before, d), PerWord(d));
    assert CacheOK(seeds, before, CacheOf(s, e), e);
  }

  lemma TracksNext(seeds: Seeds, before: seq<Width>, s: State, d: Width)
    requires Tracks(seeds, before, s)
    ensures Tracks(seeds, before + [d], Next(s, d))
    ensures Value(s, d) == Expected(seeds, before, d)
  {
    CallAppended(before, d, d);
    assert CacheOK(seeds, before, CacheOf(s, d), d);
    forall e ensures CacheOK(seeds, before + [d], CacheOf(Next(s, d), e), e) {
      CacheNext(seeds, before, s, d, e);
    }
  }

  /** From a flushed state, under any interleaving of the four calls, every call returns what it must,
      the words drawn being consecutive words of the 32-bit stream. */
  lemma {:induction false} RunTracks(seeds: Seeds, calls: seq<Width>)
    ensures Tracks(seeds, calls, Run(Flushed(seeds), calls))
    ensures forall d :: Value(Run(Flushed(seeds), calls), d) == Expected(seeds, calls, d)
    decreases |calls|
  {
    var s := Run(Flushed(seeds), calls);
    if calls == [] {
    } else {
      var before, d := calls[..|calls| - 1], calls[|calls| - 1];
      RunTracks(seeds, before);
      TracksNext(seeds, before, Run(Flushed(seeds), before), d);
      assert before + [d] == calls;
    }
    forall d ensures Value(s, d) == Expected(seeds, calls, d) { TracksNext(seeds, calls, s, d); }
  }

  // ---------- no bit of a word is dropped or used twice ----------

  /** The number whose n low digits are those of x. */
  function Rebuilt(x: nat, base: nat, n: nat): nat
    requires base > 0
  {
    if n == 0 then 0 else Rebuilt(x, base, n - 1) + Pow(base, n - 1) * Digit(x, base, n - 1)
  }

  lemma {:induction false} DigitsRebuild(x: nat, base: nat, n: nat)
    requires base > 0
    ensures x == Rebuilt(x, base, n) + Pow(base, n) * Shifted(x, base, n)
  {
    if n > 0 {
      DigitsRebuild(x, base, n - 1);
      PeelDigit(Pow(base, n - 1), base, Shifted(x, base, n - 1));
    }
  }

  lemma PeelDigit(p: nat, b: nat, y: nat)
    requires b > 0
    ensures p * y == p * (y % b) + (b * p) * (y / b)
  {
    assert p * (b * (y / b)) == (b * p) * (y / b);
  }

  lemma PowersOfBase(d: Width)
    ensures Pow(Base(d), PerWord(d)) == TWO_32
  {
    match d
    case W1 => assert Pow(2, 8) == 0x100 && Pow(2, 16) == 0x1_0000 && Pow(2, 24) == 0x100_0000 && Pow(2, 32) == TWO_32;
    case W8 => assert Pow(0x100, 2) == 0x1_0000 && Pow(0x100, 4) == TWO_32;
    case W16 => assert Pow(TWO_16, 2) == TWO_32;
    case W32 => assert Pow(TWO_32, 1) == TWO_32;
  }

  /** The values that one word gives to its width put together are the word. */
  lemma WordIsUsedUp(x: u32, d: Width)
    ensures Rebuilt(x, Base(d), PerWord(d)) == x
  {
    DigitsRebuild(x, Base(d), PerWord(d));
    PowersOfBase(d);
    Multiples(TWO_32, Shifted(x, Base(d), PerWord(d)));
  }

  function OneBitCalls(n: nat): (calls: seq<Width>)
    ensures |calls| == n
  {
    seq(n, _ => W1)
  }

  lemma Before32(n: nat)
    requires n > 0
    ensures n % 32 == 0 ==> (n - 1) / 32 + 1 == n / 32
    ensures n % 32 != 0 ==> (n - 1) / 32 == n / 32
  {
  }

  lemma {:induction false} OneBitCounts(n: nat)
    ensures var calls := OneBitCalls(n);
            && Count(calls, W1) == n
            && Drawn(calls) == (if n == 0 then 0 else (n - 1) / 32 + 1)
            && (n > 0 ==> LastDraw(calls, W1) == (n - 1) / 32)
  {
    if n > 0 {
      hide Count, Drawn, LastDraw;
      OneBitCounts(n - 1);
      if n > 1 { Before32(n - 1); }
      assert OneBitCalls(n) == OneBitCalls(n - 1) + [W1];
      CallAppended(OneBitCalls(n - 1), W1, W1);
    }
  }

  /** Draws of one bit from a flushed state: the 32 bits of each word, lowest first. */
  lemma BitsOfWords(seeds: Seeds, n: nat)
    ensures Value(Run(Flushed(seeds), OneBitCalls(n)), W1) == Digit(WordAt(seeds, n / 32), 2, n % 32)
  {
    hide Value, Run, WordAt, Digit;
    RunTracks(seeds, OneBitCalls(n));
    OneBitCounts(n);
    if n > 0 { Before32(n); }
  }

  // ---------- the code ----------

  class Mwc {
    var z: u32
    var w: u32
    var n16: nat
    var saved16: u32
    var n8: nat
    var saved8: u32
    var n1: nat
    var saved1: u32

    /** The values of the fields. */
    function View(): State
      reads this
    {
      State(Seeds(z, w), Cache(n1, saved1), Cache(n8, saved8), Cache(n16, saved16))
    }

    constructor ()
      ensures View() == Flushed(Seeds(SEED_Z, SEED_W))
    {
      z, w := SEED_Z, SEED_W;
      n16, saved16, n8, saved8, n1, saved1 := 0, 0, 0, 0, 0, 0;
    }

    /** mwc_flush */
    method Flush()
      modifies this
      ensures View() == Flushed(old(View()).seeds)
    {
      n16 := 0;
      n8 := 0;
      n1 := 0;
      saved16 := 0;
      saved8 := 0;
      saved1 := 0;
    }

    method SeedSet(w: u32, z: u32)
      modifies this
      ensures View() == Flushed(Seeds(z, w))
    {
      this.w := w;
      this.z := z;
      Flush();
    }

    method SeedGet() returns (w: u32, z: u32)
      ensures Seeds(z, w) == View().seeds
    {
      w := this.w;
      z := this.z;
    }

    method SeedDefault()
      modifies this
      ensures View() == Flushed(Seeds(SEED_Z, SEED_W))
    {
      SeedSet(SEED_W, SEED_Z);
    }

    method Mwc32() returns (r: u32)
      modifies this
      ensures View() == Next(old(View()), W32) && r == Value(old(View()), W32)
      ensures View() == old(View()).(seeds := Advance(old(View()).seeds))
      ensures r == WordAt(old(View()).seeds, 0) == Output(View().seeds)
    {
      ghost var s := View().seeds;
      StepFits(A_Z, z);
      StepFits(A_W, w);
      z := 36969 * (z % TWO_16) + z / TWO_16;
      w := 18000 * (w % TWO_16) + w / TWO_16;
      assert View().seeds == Advance(s);
      r := ((z % TWO_16) * TWO_16 + w) % TWO_32;
      assert r == Output(View().seeds);
      FirstWords(s);
    }

    /** The high half is drawn first. */
    method Mwc64() returns (r: nat)
      modifies this
      ensures View() == old(View()).(seeds := After(old(View()).seeds, 2))
      ensures r == Join(WordAt(old(View()).seeds, 0), WordAt(old(View()).seeds, 1)) < TWO_32 * TWO_32
      ensures r / 0x1_0000_0000 == WordAt(old(View()).seeds, 0) && r % 0x1_0000_0000 == WordAt(old(View()).seeds, 1)
    {
      FirstWords(View().seeds);
      var high := Mwc32();
      var low := Mwc32();
      r := Join(high, low);
    }

    method Mwc16() returns (r: nat)
      modifies this
      ensures View() == Next(old(View()), W16) && r == Value(old(View()), W16)
    {
      if n16 > 0 {
        n16 := n16 - 1;
        saved16 := saved16 / TWO_16;
      } else {
        n16 := 1;
        saved16 := Mwc32();
      }
      r := saved16 % TWO_16;
    }

    method Mwc8() returns (r: nat)
      modifies this
      ensures View() == Next(old(View()), W8) && r == Value(old(View()), W8)
    {
      if n8 > 0 {
        n8 := n8 - 1;
        saved8 := saved8 / 0x100;
      } else {
        n8 := 3;
        saved8 := Mwc32();
      }
      r := saved8 % 0x100;
    }

    method Mwc1() returns (r: nat)
      modifies this
      ensures View() == Next(old(View()), W1) && r == Value(old(View()), W1)
    {
      if n1 > 0 {
        n1 := n1 - 1;
        saved1 := saved1 / 2;
      } else {
        n1 := 31;
        saved1 := Mwc32();
      }
      r := saved1 % 2;
    }

    /** stress_rndstr: len - 1 characters of the base64url alphabet and a NUL.  Five characters come
        from each word, lowest six bits first; the two top bits set in r mark when it is used up. */
    method RndStr(str: array<char>, len: nat)
      requires len <= str.Length
      modifies this, str
      ensures len == 0 ==> View() == old(View())
      ensures len > 0 ==>
        && View() == old(View()).(seeds := After(old(View()).seeds, 1 + (len - 1) / 5))
        && str[len - 1] == '\0'
        && forall i :: 0 <= i < len - 1 ==> str[i] == Letter(old(View()).seeds, i)
      ensures str[len..] == old(str[len..])
    {
      if len == 0 {
        return;
      }
      ghost var s := View().seeds;
      assert After(s, 0) == s;
      var r := DrawMarked(s, 0);
      var at := 0;
      while at < len - 1
        invariant 0 <= at <= len - 1
        invariant View() == old(View()).(seeds := After(s, 1 + at / 5))
        invariant r == Pending(s, at)
        invariant forall i :: 0 <= i < at ==> str[i] == Letter(s, i)
        invariant str[len..] == old(str[len..])
      {
        str[at], r := NextLetter(s, at, r);
        at := at + 1;
      }
      str[at] := '\0';
    }

    /** One round of the loop: the letter of the six low bits, and the bits that remain, from a new word
        when only the marker is left. */
    method NextLetter(ghost s: Seeds, ghost at: nat, bits: nat) returns (c: char, r: nat)
      requires bits == Pending(s, at) && View().seeds == After(s, 1 + at / 5)
      modifies this
      ensures c == Letter(s, at) && r == Pending(s, at + 1)
      ensures View() == old(View()).(seeds := After(s, 1 + (at + 1) / 5))
    {
      MarkedDigit(WordAt(s, at / 5), at % 5);
      FiveNext(at);
      c := ALPHABET[bits % 64];
      r := bits / 64;
      if r == 3 {
        r := DrawMarked(s, (at + 1) / 5);
      }
    }

    /** stress_mwc32() | mask, as word n of the stream from s. */
    method DrawMarked(ghost s: Seeds, ghost n: nat) returns (r: u32)
      requires View().seeds == After(s, n)
      modifies this
      ensures View() == old(View()).(seeds := After(s, n + 1)) && r == Marked(WordAt(s, n), 0)
    {
      r := Mwc32();
      r := WithMarker(r);
      Rooms();
    }
  }

  const UPPER: string := "ABCDEFGHIJKLMNOPQRSTUVWXYZ"
  const LOWER: string := "abcdefghijklmnopqrstuvwxyz"
  const ALPHABET: string := UPPER + LOWER + "0123456789-_"

  /** The base64url alphabet: capitals, small letters, digits, hyphen and underscore, each in order, so that
      the 64 characters are all different. */
  lemma AlphabetIs(d: nat)
    requires d < 64
    ensures d < 26 ==> ALPHABET[d] as int == 65 + d
    ensures 26 <= d < 52 ==> ALPHABET[d] as int == 97 + (d - 26)
    ensures 52 <= d < 62 ==> ALPHABET[d] as int == 48 + (d - 52)
    ensures d == 62 ==> ALPHABET[d] == '-'
    ensures d == 63 ==> ALPHABET[d] == '_'
  {
    if d < 26 {
      assert ALPHABET[d] == UPPER[d];
      UpperIs(d);
    } else if d < 52 {
      assert ALPHABET[d] == LOWER[d - 26];
      LowerIs(d - 26);
    } else {
      assert ALPHABET[d] == "0123456789-_"[d - 52];
    }
  }

  lemma UpperIs(d: nat)
    requires d < 26
    ensures UPPER[d] as int == 65 + d
  {
  }

  lemma LowerIs(d: nat)
    requires d < 26
    ensures LOWER[d] as int == 97 + d
  {
  }

  /** Character i of a random string. */
  function Letter(s: Seeds, i: nat): char {
    ALPHABET[Digit(WordAt(s, i / 5), 64, i % 5)]
  }

  lemma DigitStep(x: nat, k: nat)
    ensures Shifted(x, 64, 0) == x && Shifted(x, 64, k + 1) == Shifted(x, 64, k) / 64
  {
  }

  lemma FiveDigits(x: nat)
    ensures Digit(x, 64, 0) == x % 64 && Digit(x, 64, 1) == x / 64 % 64 && Digit(x, 64, 2) == x / 64 / 64 % 64
    ensures Digit(x, 64, 3) == x / 64 / 64 / 64 % 64 && Digit(x, 64, 4) == x / 64 / 64 / 64 / 64 % 64
  {
    hide Shifted;
    DigitStep(x, 0);
    DigitStep(x, 1);
    DigitStep(x, 2);
    DigitStep(x, 3);
  }

  lemma KnownDigits()
    ensures var x := 820856226;
            && Digit(x, 64, 0) == 34 && Digit(x, 64, 1) == 22 && Digit(x, 64, 2) == 20
            && Digit(x, 64, 3) == 59 && Digit(x, 64, 4) == 48
    ensures Digit(2331188998, 64, 0) == 6
  {
    hide Digit;
    FiveDigits(820856226);
    FiveDigits(2331188998);
  }

  /** The random string from the default seeds begins with iWU7wG. */
  lemma KnownLetters(s: Seeds)
    requires s == Seeds(SEED_Z, SEED_W)
    ensures Letter(s, 0) == 'i' && Letter(s, 1) == 'W' && Letter(s, 2) == 'U' && Letter(s, 3) == '7'
    ensures Letter(s, 4) == 'w' && Letter(s, 5) == 'G'
  {
    hide WordAt, Digit, Letter;
    KnownWords();
    KnownDigits();
    KnownLetter(s, 0, 820856226, 34);
    KnownLetter(s, 1, 820856226, 22);
    KnownLetter(s, 2, 820856226, 20);
    KnownLetter(s, 3, 820856226, 59);
    KnownLetter(s, 4, 820856226, 48);
    KnownLetter(s, 5, 2331188998, 6);
  }

  lemma KnownLetter(s: Seeds, i: nat, x: u32, d: nat)
    requires WordAt(s, i / 5) == x && Digit(x, 64, i % 5) == d && d < 64
    ensures d < 26 ==> Letter(s, i) as int == 65 + d
    ensures 26 <= d < 52 ==> Letter(s, i) as int == 97 + (d - 26)
    ensures 52 <= d < 62 ==> Letter(s, i) as int == 48 + (d - 52)
  {
    hide WordAt, Digit;
    AlphabetIs(d);
  }

  /** r | 0xc0000000 */
  function WithMarker(r: u32): u32 { r % 0x4000_0000 + 0xc000_0000 }

  /** The room below the marker after k characters. */
  function Room(k: nat): (t: nat)
    ensures t > 0
    decreases 5 - k
  {
    if k >= 5 then 1 else 64 * Room(k + 1)
  }

  lemma Rooms()
    ensures Room(0) == 0x4000_0000 && Room(5) == 1
  {
    assert Room(3) == 0x1000;
  }

  /** A word with its marker, k characters later. */
  function Marked(x: u32, k: nat): nat {
    Shifted(x, 64, k) % Room(k) + 3 * Room(k)
  }

  /** The bits not yet used when character i is due. */
  function Pending(s: Seeds, i: nat): nat { Marked(WordAt(s, i / 5), i % 5) }

  /** Dropping six bits from below a marker. */
  lemma DropSix(y: nat, t: nat)
    requires t > 0
    ensures (y % (64 * t) + 3 * (64 * t)) % 64 == y % 64
    ensures (y % (64 * t) + 3 * (64 * t)) / 64 == (y / 64) % t + 3 * t
  {
    var q, m := y / (64 * t), y % (64 * t);
    assert y == (64 * t) * q + m == 64 * (t * q) + m;
    ModUnique(64, t * q + m / 64, m % 64, y);
    ModUnique(t, q, m / 64, y / 64);
    ModUnique(64, m / 64 + 3 * t, m % 64, m + 3 * (64 * t));
  }

  /** The next character is the next digit, and the marker shows exactly after five. */
  lemma MarkedDigit(x: u32, k: nat)
    requires k < 5
    ensures Marked(x, k) % 64 == Digit(x, 64, k)
    ensures Marked(x, k) / 64 == Marked(x, k + 1)
    ensures Marked(x, k + 1) == 3 <==> k == 4
  {
    DropSix(Shifted(x, 64, k), Room(k + 1));
    if k < 4 { assert Room(k + 1) == 64 * Room(k + 2) >= 64; }
  }

  lemma FiveNext(n: nat)
    ensures n % 5 == 4 ==> (n + 1) / 5 == n / 5 + 1 && (n + 1) % 5 == 0
    ensures n % 5 != 4 ==> (n + 1) / 5 == n / 5 && (n + 1) % 5 == n % 5 + 1
  {
  }
}
