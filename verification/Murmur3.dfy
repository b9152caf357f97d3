/** The 32-bit murmur3 hash: every operation on the state is a bijection, so the seed can be computed
    back from the hash, and keys that differ in one block only never collide.

    Each operation is named and paired with its inverse; the lemmas ...Inverse are the only ones
    that look at bits. */
module Murmur3 {
  import opened Registers

  // ---------- the operations and their inverses ----------

  function MulC1(x: bv32): bv32 { x * 0xcc9e2d51 }

  function UnMulC1(x: bv32): bv32 { x * 0xdee13bb1 }

  lemma MulC1Inverse(x: bv32)
    ensures UnMulC1(MulC1(x)) == x && MulC1(UnMulC1(x)) == x
  {
    calc { UnMulC1(MulC1(x)); UnMulC1(x * 0xcc9e2d51); x; }
    calc { MulC1(UnMulC1(x)); MulC1(x * 0xdee13bb1); x; }
  }

  function Rol15(x: bv32): bv32 { (x << 15) | (x >> 17) }

  function UnRol15(x: bv32): bv32 { (x >> 15) | (x << 17) }

  lemma Rol15Inverse(x: bv32)
    ensures UnRol15(Rol15(x)) == x && Rol15(UnRol15(x)) == x
  {
    calc { UnRol15(Rol15(x)); UnRol15((x << 15) | (x >> 17)); x; }
    calc { Rol15(UnRol15(x)); Rol15((x >> 15) | (x << 17)); x; }
  }

  function MulC2(x: bv32): bv32 { x * 0x1b873593 }

  function UnMulC2(x: bv32): bv32 { x * 0x56ed309b }

  lemma MulC2Inverse(x: bv32)
    ensures UnMulC2(MulC2(x)) == x && MulC2(UnMulC2(x)) == x
  {
    calc { UnMulC2(MulC2(x)); UnMulC2(x * 0x1b873593); x; }
    calc { MulC2(UnMulC2(x)); MulC2(x * 0x56ed309b); x; }
  }

  function Rol13(x: bv32): bv32 { (x << 13) | (x >> 19) }

  function UnRol13(x: bv32): bv32 { (x >> 13) | (x << 19) }

  lemma Rol13Inverse(x: bv32)
    ensures UnRol13(Rol13(x)) == x && Rol13(UnRol13(x)) == x
  {
    calc { UnRol13(Rol13(x)); UnRol13((x << 13) | (x >> 19)); x; }
    calc { Rol13(UnRol13(x)); Rol13((x >> 13) | (x << 19)); x; }
  }

  function FiveAdd(x: bv32): bv32 { x * 5 + 0xe6546b64 }

  function UnFiveAdd(x: bv32): bv32 { (x - 0xe6546b64) * 0xcccccccd }

  lemma FiveAddInverse(x: bv32)
    ensures UnFiveAdd(FiveAdd(x)) == x && FiveAdd(UnFiveAdd(x)) == x
  {
    calc { UnFiveAdd(FiveAdd(x)); UnFiveAdd(x * 5 + 0xe6546b64); x; }
    calc { FiveAdd(UnFiveAdd(x)); FiveAdd((x - 0xe6546b64) * 0xcccccccd); x; }
  }

  function Fold16(x: bv32): bv32 { x ^ (x >> 16) }

  function UnFold16(x: bv32): bv32 { x ^ (x >> 16) }

  lemma Fold16Inverse(x: bv32)
    ensures UnFold16(Fold16(x)) == x && Fold16(UnFold16(x)) == x
  {
    calc { UnFold16(Fold16(x)); UnFold16(x ^ (x >> 16)); x; }
    calc { Fold16(UnFold16(x)); Fold16(x ^ (x >> 16)); x; }
  }

  function MulF1(x: bv32): bv32 { x * 0x85ebca6b }

  function UnMulF1(x: bv32): bv32 { x * 0xa5cb9243 }

  lemma MulF1Inverse(x: bv32)
    ensures UnMulF1(MulF1(x)) == x && MulF1(UnMulF1(x)) == x
  {
    calc { UnMulF1(MulF1(x)); UnMulF1(x * 0x85ebca6b); x; }
    calc { MulF1(UnMulF1(x)); MulF1(x * 0xa5cb9243); x; }
  }

  function Fold13(x: bv32): bv32 { x ^ (x >> 13) }

  function UnFold13(x: bv32): bv32 { x ^ (x >> 13) ^ (x >> 26) }

  lemma Fold13Inverse(x: bv32)
    ensures UnFold13(Fold13(x)) == x && Fold13(UnFold13(x)) == x
  {
    calc { UnFold13(Fold13(x)); UnFold13(x ^ (x >> 13)); x; }
    calc { Fold13(UnFold13(x)); Fold13(x ^ (x >> 13) ^ (x >> 26)); x; }
  }

  function MulF2(x: bv32): bv32 { x * 0xc2b2ae35 }

  function UnMulF2(x: bv32): bv32 { x * 0x7ed1b41d }

  lemma MulF2Inverse(x: bv32)
    ensures UnMulF2(MulF2(x)) == x && MulF2(UnMulF2(x)) == x
  {
    calc { UnMulF2(MulF2(x)); UnMulF2(x * 0xc2b2ae35); x; }
    calc { MulF2(UnMulF2(x)); MulF2(x * 0x7ed1b41d); x; }
  }

  function Scramble(k: bv32): bv32 { MulC2(Rol15(MulC1(k))) }

  function Unscramble(k: bv32): bv32 { UnMulC1(UnRol15(UnMulC2(k))) }

  lemma ScrambleInverse(k: bv32)
    ensures Unscramble(Scramble(k)) == k
  {
    MulC1Inverse(k);
    Rol15Inverse(MulC1(k));
    MulC2Inverse(Rol15(MulC1(k)));
  }

  /** What a block of four bytes does to the state. */
  function Mix(h: bv32, k: bv32): bv32 { FiveAdd(Rol13(Xor(h, Scramble(k)))) }

  function Unmix(h: bv32, k: bv32): bv32 { Xor(UnRol13(UnFiveAdd(h)), Scramble(k)) }

  lemma MixInverse(h: bv32, k: bv32)
    ensures Unmix(Mix(h, k), k) == h && Mix(Unmix(h, k), k) == h
  {
    var x, y := Xor(h, Scramble(k)), UnRol13(UnFiveAdd(h));
    XorInverse(h, Scramble(k));
    Rol13Inverse(x);
    FiveAddInverse(Rol13(x));
    XorInverse(y, Scramble(k));
    Rol13Inverse(UnFiveAdd(h));
    FiveAddInverse(h);
  }

  /** The final avalanche. */
  function Final(h: bv32): bv32 { Fold16(MulF2(Fold13(MulF1(Fold16(h))))) }

  function Unfinal(h: bv32): bv32 { UnFold16(UnMulF1(UnFold13(UnMulF2(UnFold16(h))))) }

  lemma FinalInverse(h: bv32)
    ensures Unfinal(Final(h)) == h && Final(Unfinal(h)) == h
  {
    Fold16Inverse(h);
    MulF1Inverse(Fold16(h));
    Fold13Inverse(MulF1(Fold16(h)));
    MulF2Inverse(Fold13(MulF1(Fold16(h))));
    Fold16Inverse(MulF2(Fold13(MulF1(Fold16(h)))));
    MulF2Inverse(UnFold16(h));
    Fold13Inverse(UnMulF2(UnFold16(h)));
    MulF1Inverse(UnFold13(UnMulF2(UnFold16(h))));
    Fold16Inverse(UnMulF1(UnFold13(UnMulF2(UnFold16(h)))));
  }

  // ---------- keys ----------

  /** The state after the blocks of four bytes. */
  function Blocks(h: bv32, key: seq<bv8>, big: bool): bv32
    decreases |key|
  {
    if |key| < 4 then h else Blocks(Mix(h, Load(key[..4], big)), key[4..], big)
  }

  /** k <<= 8; k |= b. */
  function Push(k: bv32, b: bv8): bv32 { (k << 8) | (b as bv32) }

  /** The one to three bytes left over, the first one lowest; 0 if there are none. */
  function Tail(t: seq<bv8>): bv32
    decreases |t|
  {
    if t == [] then 0 else Push(Tail(t[1..]), t[0])
  }

  function TailStart(n: nat): nat { 4 * (n / 4) }

  /** h ^= len, with len truncated to 32 bits. */
  function LengthWord(n: nat): bv32 { (n % 0x1_0000_0000) as bv32 }

  function Finish(h: bv32, k: bv32, n: nat): bv32 {
    Final(Xor(Xor(h, Scramble(k)), LengthWord(n)))
  }

  function Hash(key: seq<bv8>, seed: bv32, big: bool): bv32 {
    Finish(Blocks(seed, key, big), Tail(key[TailStart(|key|)..]), |key|)
  }

  // ---------- the code ----------

  method HashMurmur3(key: seq<bv8>, seed: bv32, big: bool) returns (hash: bv32)
    ensures hash == Hash(key, seed, big)
  {
    var h := seed;
    var at := 0;
    var i := |key| / 4;
    while i != 0
      invariant 0 <= i <= |key| / 4 && at == 4 * (|key| / 4 - i)
      invariant Blocks(seed, key, big) == Blocks(h, key[at..], big)
    {
      var k := Load(key[at..at + 4], big);
      assert key[at..][..4] == key[at..at + 4] && key[at..][4..] == key[at + 4..];
      at := at + 4;
      h := Mix(h, k);
      i := i - 1;
    }
    ghost var tail := key[TailStart(|key|)..];
    assert key[at..] == tail;
    var k: bv32 := 0;
    i := |key| % 4;
    assert tail[i..] == [];
    while i != 0
      invariant 0 <= i <= |key| % 4 == |tail|
      invariant k == Tail(tail[i..])
    {
      assert tail[i - 1..][1..] == tail[i..] && tail[i - 1] == key[at + i - 1];
      k := Push(k, key[at + i - 1]);
      i := i - 1;
    }
    assert tail[0..] == tail;
    hash := Finish(h, k, |key|);
  }

  // ---------- the seed is determined by the hash, and every hash has a seed ----------

  function UnfinishState(hash: bv32, k: bv32, n: nat): bv32 {
    Xor(Xor(Unfinal(hash), LengthWord(n)), Scramble(k))
  }

  lemma FinishInverse(h: bv32, k: bv32, n: nat)
    ensures UnfinishState(Finish(h, k, n), k, n) == h
    ensures Finish(UnfinishState(h, k, n), k, n) == h
  {
    FinalInverse(Xor(Xor(h, Scramble(k)), LengthWord(n)));
    XorInverse(Xor(h, Scramble(k)), LengthWord(n));
    XorInverse(h, Scramble(k));
    XorInverse(Xor(Unfinal(h), LengthWord(n)), Scramble(k));
    XorInverse(Unfinal(h), LengthWord(n));
    FinalInverse(h);
  }

  function Unblocks(h: bv32, key: seq<bv8>, big: bool): bv32
    decreases |key|
  {
    if |key| < 4 then h else Unmix(Unblocks(h, key[4..], big), Load(key[..4], big))
  }

  lemma {:induction false} BlocksInverse(h: bv32, key: seq<bv8>, big: bool)
    ensures Unblocks(Blocks(h, key, big), key, big) == h
    ensures Blocks(Unblocks(h, key, big), key, big) == h
    decreases |key|
  {
    if |key| >= 4 {
      BlocksInverse(Mix(h, Load(key[..4], big)), key[4..], big);
      MixInverse(h, Load(key[..4], big));
      BlocksInverse(h, key[4..], big);
      MixInverse(Unblocks(h, key[4..], big), Load(key[..4], big));
    }
  }

  /** The one seed under which key hashes to hash. */
  function SeedFor(key: seq<bv8>, hash: bv32, big: bool): bv32 {
    Unblocks(UnfinishState(hash, Tail(key[TailStart(|key|)..]), |key|), key, big)
  }

  /** For a fixed key, seed to hash is a bijection on 32-bit words. */
  lemma SeedBijection(key: seq<bv8>, seed: bv32, hash: bv32, big: bool)
    ensures SeedFor(key, Hash(key, seed, big), big) == seed
    ensures Hash(key, SeedFor(key, hash, big), big) == hash
  {
    var k := Tail(key[TailStart(|key|)..]);
    FinishInverse(Blocks(seed, key, big), k, |key|);
    BlocksInverse(seed, key, big);
    FinishInverse(hash, k, |key|);
    BlocksInverse(UnfinishState(hash, k, |key|), key, big);
  }

  // ---------- one changed block or a changed tail always shows ----------

  /** A tail of n < 4 bytes fits in the n low bytes of a word. */
  predicate Fits(k: bv32, n: nat) {
    match n
    case 0 => k == 0
    case 1 => k <= 0xff
    case 2 => k <= 0xffff
    case _ => k <= 0xff_ffff
  }

  lemma {:induction false} TailFits(t: seq<bv8>)
    requires |t| < 4
    ensures Fits(Tail(t), |t|)
  {
    if t != [] { TailFits(t[1..]); RawFits(Tail(t[1..]), t[0], |t|); }
  }

  lemma RawFits(k: bv32, b: bv8, n: nat)
    requires 0 < n < 4 && Fits(k, n - 1)
    ensures Fits(Push(k, b), n)
  {
  }

  lemma PushInjective(k: bv32, l: bv32, b: bv8, c: bv8)
    requires k <= 0xffff && l <= 0xffff && Push(k, b) == Push(l, c)
    ensures k == l && b == c
  {
  }

  lemma RawWeaken(k: bv32, n: nat)
    requires n < 3 && Fits(k, n)
    ensures k <= 0xffff
  {
  }

  lemma ShortTail(t: seq<bv8>)
    requires |t| < 3
    ensures Tail(t) <= 0xffff
  {
    TailFits(t);
    RawWeaken(Tail(t), |t|);
  }

  lemma {:induction false} TailInjective(t: seq<bv8>, u: seq<bv8>)
    requires |t| == |u| < 4 && Tail(t) == Tail(u)
    ensures t == u
  {
    if t != [] {
      ShortTail(t[1..]);
      ShortTail(u[1..]);
      PushInjective(Tail(t[1..]), Tail(u[1..]), t[0], u[0]);
      TailInjective(t[1..], u[1..]);
    }
  }

  lemma MixInjectiveInBlock(h: bv32, k: bv32, l: bv32)
    requires Mix(h, k) == Mix(h, l)
    ensures k == l
  {
    var x, y := Scramble(k), Scramble(l);
    FiveAddInverse(Rol13(Xor(h, x)));
    FiveAddInverse(Rol13(Xor(h, y)));
    Rol13Inverse(Xor(h, x));
    Rol13Inverse(Xor(h, y));
    XorSwap(h, x);
    XorSwap(h, y);
    XorInverse(x, h);
    XorInverse(y, h);
    ScrambleInverse(k);
    ScrambleInverse(l);
  }

  lemma {:induction false} BlockShows(h: bv32, a: seq<bv8>, b: seq<bv8>, i: nat, big: bool)
    requires |a| == |b| && 4 * i + 4 <= |a|
    requires a[4 * i..4 * i + 4] != b[4 * i..4 * i + 4]
    requires a[..4 * i] == b[..4 * i] && a[4 * i + 4..] == b[4 * i + 4..]
    ensures Blocks(h, a, big) != Blocks(h, b, big)
    decreases i
  {
    if i == 0 {
      if Blocks(h, a, big) == Blocks(h, b, big) {
        BlocksInverse(Mix(h, Load(a[..4], big)), a[4..], big);
        BlocksInverse(Mix(h, Load(b[..4], big)), b[4..], big);
        MixInjectiveInBlock(h, Load(a[..4], big), Load(b[..4], big));
        LoadInjective(a[..4], b[..4], big);
        assert false;
      }
    } else {
      assert a[..4] == a[..4 * i][..4] == b[..4 * i][..4] == b[..4];
      var a', b', j := a[4..], b[4..], i - 1;
      assert a'[4 * j..4 * j + 4] == a[4 * i..4 * i + 4] && b'[4 * j..4 * j + 4] == b[4 * i..4 * i + 4];
      assert a'[..4 * j] == a[..4 * i][4..] && b'[..4 * j] == b[..4 * i][4..];
      assert a'[4 * j + 4..] == a[4 * i + 4..] && b'[4 * j + 4..] == b[4 * i + 4..];
      BlockShows(Mix(h, Load(a[..4], big)), a', b', j, big);
    }
  }

  lemma FinishInjective(h: bv32, g: bv32, k: bv32, n: nat)
    requires Finish(h, k, n) == Finish(g, k, n)
    ensures h == g
  {
    FinishInverse(h, k, n);
    FinishInverse(g, k, n);
  }

  /** Two keys of the same length that differ in exactly one aligned block of four bytes hash
      differently under every seed. */
  lemma OneBlockNeverCollides(a: seq<bv8>, b: seq<bv8>, i: nat, seed: bv32, big: bool)
    requires |a| == |b| && 4 * i + 4 <= |a|
    requires a[4 * i..4 * i + 4] != b[4 * i..4 * i + 4]
    requires a[..4 * i] == b[..4 * i] && a[4 * i + 4..] == b[4 * i + 4..]
    ensures Hash(a, seed, big) != Hash(b, seed, big)
  {
    var t := TailStart(|a|);
    assert a[t..] == a[4 * i + 4..][t - (4 * i + 4)..];
    assert b[t..] == b[4 * i + 4..][t - (4 * i + 4)..];
    BlockShows(seed, a, b, i, big);
    if Hash(a, seed, big) == Hash(b, seed, big) {
      FinishInjective(Blocks(seed, a, big), Blocks(seed, b, big), Tail(a[t..]), |a|);
    }
  }

  lemma {:induction false} BlocksIgnoreTail(h: bv32, a: seq<bv8>, b: seq<bv8>, big: bool)
    requires |a| == |b| && a[..TailStart(|a|)] == b[..TailStart(|a|)]
    ensures Blocks(h, a, big) == Blocks(h, b, big)
    decreases |a|
  {
    if |a| >= 4 {
      var t := TailStart(|a|);
      assert TailStart(|a[4..]|) == t - 4;
      assert a[..4] == a[..t][..4] == b[..t][..4] == b[..4];
      assert a[4..][..t - 4] == a[..t][4..] && b[4..][..t - 4] == b[..t][4..];
      BlocksIgnoreTail(Mix(h, Load(a[..4], big)), a[4..], b[4..], big);
    }
  }

  lemma FinishInjectiveInTail(h: bv32, k: bv32, l: bv32, n: nat)
    requires Finish(h, k, n) == Finish(h, l, n)
    ensures k == l
  {
    var x, y := Scramble(k), Scramble(l);
    FinalInverse(Xor(Xor(h, x), LengthWord(n)));
    FinalInverse(Xor(Xor(h, y), LengthWord(n)));
    XorInverse(Xor(h, x), LengthWord(n));
    XorInverse(Xor(h, y), LengthWord(n));
    XorSwap(h, x);
    XorSwap(h, y);
    XorInverse(x, h);
    XorInverse(y, h);
    ScrambleInverse(k);
    ScrambleInverse(l);
  }

  /** The same for keys that differ only in the one to three bytes after the last whole block. */
  lemma TailNeverCollides(a: seq<bv8>, b: seq<bv8>, seed: bv32, big: bool)
    requires |a| == |b| && a != b && a[..TailStart(|a|)] == b[..TailStart(|a|)]
    ensures Hash(a, seed, big) != Hash(b, seed, big)
  {
    var t := TailStart(|a|);
    assert a == a[..t] + a[t..] && b == b[..t] + b[t..];
    BlocksIgnoreTail(seed, a, b, big);
    if Hash(a, seed, big) == Hash(b, seed, big) {
      FinishInjectiveInTail(Blocks(seed, a, big), Tail(a[t..]), Tail(b[t..]), |a|);
      TailInjective(a[t..], b[t..]);
    }
  }

  // ---------- known answers ----------

  /** One word through the scramble, and one state through the finalizer, step by step. */
  lemma ScrambleSteps(k: bv32, a: bv32, b: bv32, c: bv32)
    requires MulC1(k) == a && Rol15(a) == b && MulC2(b) == c
    ensures Scramble(k) == c
  {
  }

  lemma FinalSteps(h: bv32, a: bv32, b: bv32, c: bv32, d: bv32, e: bv32)
    requires Fold16(h) == a && MulF1(a) == b && Fold13(b) == c && MulF2(c) == d && Fold16(d) == e
    ensures Final(h) == e
  {
  }

  lemma MixSteps(h: bv32, k: bv32, c: bv32, x: bv32, y: bv32, z: bv32)
    requires Scramble(k) == c && Xor(h, c) == x && Rol13(x) == y && FiveAdd(y) == z
    ensures Mix(h, k) == z
  {
  }

  /** "a" under seed 0. */
  lemma KnownTail(key: seq<bv8>, seed: bv32, big: bool)
    requires key == [0x61] && seed == 0
    ensures Hash(key, seed, big) == 0x3c2569b2
  {
    ScrambleSteps(0x00000061, 0x87ef2bb1, 0x95d8c3f7, 0x504ba9d5);
    FinalSteps(0x504ba9d4, 0x504bf99f, 0x42adcb75, 0x42afde1b, 0x3c255597, 0x3c2569b2);
    assert key[0..] == key && key[1..] == [];
    assert Tail([]) == 0 && Tail(key) == Push(0, 0x61) == 0x61;
    assert Blocks(0, key, big) == 0;
    assert LengthWord(1) == 1;
    assert Xor(0, 0x504ba9d5) == 0x504ba9d5 && Xor(0x504ba9d5, 1) == 0x504ba9d4;
  }

  lemma KnownBlocksLittle(key: seq<bv8>, seed: bv32)
    requires key == [0x61, 0x62, 0x63, 0x64, 0x65] && seed == 0x9747b28c
    ensures Blocks(seed, key, false) == 0x1719cb66
  {
    hide Mix, Scramble, Load;
    ScrambleSteps(0x64636261, 0x3f9b2db1, 0x96d89fcd, 0x5b9433b7);
    MixSteps(0x9747b28c, 0x64636261, 0x5b9433b7, 0xccd3813b, 0x7027799a, 0x1719cb66);
    assert key[..4] == [0x61, 0x62, 0x63, 0x64] && key[4..] == [0x65];
    LoadAbcd();
    assert Blocks(0x1719cb66, [0x65], false) == 0x1719cb66;
  }

  /** "abcde", a whole block and a tail, on a little-endian machine. */
  lemma KnownBlockLittle(key: seq<bv8>, seed: bv32)
    requires key == [0x61, 0x62, 0x63, 0x64, 0x65] && seed == 0x9747b28c
    ensures Hash(key, seed, false) == 0xe915b832
  {
    hide Blocks, Scramble, Final, LengthWord;
    KnownBlocksLittle(key, seed);
    ScrambleSteps(0x00000065, 0xba67e0f5, 0xf07add33, 0x8d3d9349);
    FinalSteps(0x9a24582a, 0x9a24c20e, 0xd75627da, 0xd7509d6b, 0xe9155127, 0xe915b832);
    TailOfE();
    assert key[4..] == [0x65];
    assert Xor(0x1719cb66, 0x8d3d9349) == 0x9a24582f && Xor(0x9a24582f, 5) == 0x9a24582a;
    LengthFive();
  }

  lemma KnownBlocksBig(key: seq<bv8>, seed: bv32)
    requires key == [0x61, 0x62, 0x63, 0x64, 0x65] && seed == 0x9747b28c
    ensures Blocks(seed, key, true) == 0x42892f28
  {
    hide Mix, Scramble, Load;
    ScrambleSteps(0x61626364, 0x235206a4, 0x035211a9, 0x08e7210b);
    MixSteps(0x9747b28c, 0x61626364, 0x08e7210b, 0x9fa09387, 0x1270f3f4, 0x42892f28);
    assert key[..4] == [0x61, 0x62, 0x63, 0x64] && key[4..] == [0x65];
    LoadAbcd();
    assert Blocks(0x42892f28, [0x65], true) == 0x42892f28;
  }

  /** "abcde", a whole block and a tail, on a big-endian machine. */
  lemma KnownBlockBig(key: seq<bv8>, seed: bv32)
    requires key == [0x61, 0x62, 0x63, 0x64, 0x65] && seed == 0x9747b28c
    ensures Hash(key, seed, true) == 0x31fe2b2a
  {
    hide Blocks, Scramble, Final, LengthWord;
    KnownBlocksBig(key, seed);
    ScrambleSteps(0x00000065, 0xba67e0f5, 0xf07add33, 0x8d3d9349);
    FinalSteps(0xcfb4bc64, 0xcfb473d0, 0x93be87f0, 0x93ba1a04, 0x31fe1ad4, 0x31fe2b2a);
    TailOfE();
    assert key[4..] == [0x65];
    assert Xor(0x42892f28, 0x8d3d9349) == 0xcfb4bc61 && Xor(0xcfb4bc61, 5) == 0xcfb4bc64;
    LengthFive();
  }

  lemma TailOfE()
    ensures Tail([0x65]) == 0x65
  {
    assert [0x65][1..] == [] && Tail([]) == 0;
    assert Push(0, 0x65) == 0x65;
  }

  lemma LengthFive()
    ensures LengthWord(5) == 5
  {
  }

  lemma LoadAbcd()
    ensures Load([0x61, 0x62, 0x63, 0x64], false) == 0x64636261
    ensures Load([0x61, 0x62, 0x63, 0x64], true) == 0x61626364
  {
  }

  // ---------- the length ----------

  lemma RawCancel(x: bv32, a: bv32, b: bv32)
    ensures (x ^ a) ^ (x ^ b) == a ^ b
  {
  }

  lemma XorCancel(x: bv32, a: bv32, b: bv32)
    ensures Xor(Xor(x, a), Xor(x, b)) == a ^ b
  {
    calc {
      Xor(Xor(x, a), Xor(x, b));
      Xor(x ^ a, x ^ b);
      (x ^ a) ^ (x ^ b);
      { RawCancel(x, a, b); }
      a ^ b;
    }
  }

  function Zeros(j: nat): (z: seq<bv8>)
    ensures |z| == j && forall i :: 0 <= i < j ==> z[i] == 0
  {
    seq(j, _ => 0)
  }

  lemma {:induction false} PaddedBlocks(h: bv32, key: seq<bv8>, j: nat, big: bool)
    requires |key| % 4 + j < 4
    ensures Blocks(h, key + Zeros(j), big) == Blocks(h, key, big)
    decreases |key|
  {
    if |key| >= 4 {
      assert (key + Zeros(j))[..4] == key[..4] && (key + Zeros(j))[4..] == key[4..] + Zeros(j);
      PaddedBlocks(Mix(h, Load(key[..4], big)), key[4..], j, big);
    }
  }

  lemma PushZero()
    ensures Push(0, 0) == 0
  {
  }

  lemma {:induction false} PaddedTail(t: seq<bv8>, j: nat)
    ensures Tail(t + Zeros(j)) == Tail(t)
    decreases |t| + j
  {
    if t == [] {
      if j > 0 {
        assert ([] + Zeros(j))[1..] == [] + Zeros(j - 1);
        PaddedTail([], j - 1);
        PushZero();
      }
    } else {
      assert (t + Zeros(j))[1..] == t[1..] + Zeros(j);
      PaddedTail(t[1..], j);
    }
  }

  lemma LengthIs(n: nat)
    requires n < 0x1_0000_0000
    ensures LengthWord(n) == n as bv32
  {
  }

  lemma UnfinalHash(key: seq<bv8>, seed: bv32, big: bool)
    ensures Unfinal(Hash(key, seed, big))
         == Xor(Xor(Blocks(seed, key, big), Scramble(Tail(key[TailStart(|key|)..]))), LengthWord(|key|))
  {
    hide Final, Unfinal, Xor, Scramble, Tail, Blocks, LengthWord;
    FinalInverse(Xor(Xor(Blocks(seed, key, big), Scramble(Tail(key[TailStart(|key|)..]))), LengthWord(|key|)));
  }

  lemma XorOfHashes(key: seq<bv8>, j: nat, seed: bv32, big: bool)
    requires |key| % 4 + j < 4
    ensures Xor(Unfinal(Hash(key, seed, big)), Unfinal(Hash(key + Zeros(j), seed, big)))
         == LengthWord(|key|) ^ LengthWord(|key| + j)
  {
    hide Hash, Unfinal, Xor, Scramble, Tail, Blocks, LengthWord;
    var pad := key + Zeros(j);
    var s := TailStart(|key|);
    assert TailStart(|pad|) == s && pad[s..] == key[s..] + Zeros(j);
    PaddedBlocks(seed, key, j, big);
    PaddedTail(key[s..], j);
    UnfinalHash(key, seed, big);
    UnfinalHash(pad, seed, big);
    XorCancel(Xor(Blocks(seed, key, big), Scramble(Tail(key[s..]))), LengthWord(|key|), LengthWord(|pad|));
  }

  /** Zeros after the key leave everything but the length as it is, and the length is xored in last. */
  lemma PaddedLength(key: seq<bv8>, j: nat, seed: bv32, big: bool)
    requires |key| % 4 + j < 4 && |key| + j < 0x1_0000_0000
    ensures Xor(Unfinal(Hash(key, seed, big)), Unfinal(Hash(key + Zeros(j), seed, big)))
         == (|key| as bv32) ^ ((|key| + j) as bv32)
  {
    hide Hash, Unfinal, Xor, LengthWord;
    XorOfHashes(key, j, seed, big);
    LengthIs(|key|);
    LengthIs(|key| + j);
  }

  predicate FirstBit(x: bv32) { x & 1 == 1 }

  predicate SecondBit(x: bv32) { x & 2 == 2 }

  lemma LengthBits(n: nat)
    requires n < 0x1_0000_0000
    ensures FirstBit(LengthWord(n)) == (n % 2 == 1)
    ensures SecondBit(LengthWord(n)) == ((n / 2) % 2 == 1)
  {
    hide FirstBit, SecondBit, LengthWord;
    LengthIs(n);
    RawLowBits(n);
  }

  lemma RawLowBits(n: nat)
    requires n < 0x1_0000_0000
    ensures FirstBit(n as bv32) == (n % 2 == 1)
    ensures SecondBit(n as bv32) == ((n / 2) % 2 == 1)
  {
  }

  lemma LengthsDiffer(n: nat, j: nat)
    requires 1 <= j <= 3 && n + j < 0x1_0000_0000
    ensures LengthWord(n) != LengthWord(n + j)
  {
    hide LengthWord, FirstBit, SecondBit;
    LengthBits(n);
    LengthBits(n + j);
  }

  /** A key and the same key with zeros up to the end of its tail never have the same hash. */
  lemma PaddingNeverCollides(key: seq<bv8>, j: nat, seed: bv32, big: bool)
    requires |key| % 4 + j < 4 && 1 <= j && |key| + j < 0x1_0000_0000
    ensures Hash(key, seed, big) != Hash(key + Zeros(j), seed, big)
  {
    hide Hash, Unfinal, Xor, LengthWord;
    XorOfHashes(key, j, seed, big);
    LengthsDiffer(|key|, j);
    RawSelf(Unfinal(Hash(key, seed, big)));
    RawDiffer(LengthWord(|key|), LengthWord(|key| + j));
  }

  lemma RawSelf(x: bv32)
    ensures Xor(x, x) == 0
  {
  }

  lemma RawDiffer(a: bv32, b: bv32)
    requires a != b
    ensures a ^ b != 0
  {
  }
}
