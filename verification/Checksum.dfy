/** The Internet checksum of section 1 of RFC 1071, and how the code computes it on machines of either
    byte order. */
module Checksum {
  import opened Arithmetic
  import opened Widths
  import opened Wrappers

  /** Two bytes read as a 16-bit word by a little- or big-endian machine. */
  function Pair(first: u8, second: u8, big: bool): u16 {
    if big then first * 256 + second else first + second * 256
  }

  /** The words of a buffer; a byte left over counts with its own value. */
  function Words(buf: seq<u8>, big: bool): (ws: seq<u16>)
    ensures |ws| == (|buf| + 1) / 2
  {
    if buf == [] then []
    else if |buf| == 1 then [buf[0]]
    else [Pair(buf[0], buf[1], big)] + Words(buf[2..], big)
  }

  function Sum(ws: seq<u16>): nat {
    if ws == [] then 0 else ws[0] + Sum(ws[1..])
  }

  // ---------- one's-complement arithmetic ----------

  /** Addition with the carry brought round to the low end. */
  function OnesAdd(a: u16, b: u16): u16 {
    if a + b >= 65536 then a + b - 65535 else a + b
  }

  function OnesSum(ws: seq<u16>): u16 {
    if ws == [] then 0 else OnesAdd(ws[0], OnesSum(ws[1..]))
  }

  /** The 16-bit representative of a sum modulo 65535: 0 stands only for 0. */
  function Residue(x: nat): (r: u16)
    ensures r == 0 <==> x == 0
  {
    if x == 0 then 0 else (x - 1) % 65535 + 1
  }

  lemma ResidueIs(x: nat, q: int, r: u16)
    requires x == 65535 * q + r && (r == 0 <==> x == 0)
    ensures Residue(x) == r
  {
    if x != 0 { ModUnique(65535, q, r - 1, x - 1); }
  }

  lemma ResidueSplits(x: nat) returns (q: int)
    ensures x == 65535 * q + Residue(x)
  {
    q := if x == 0 then 0 else (x - 1) / 65535;
  }

  lemma {:induction false} OnesSumIsResidue(ws: seq<u16>)
    ensures OnesSum(ws) == Residue(Sum(ws))
  {
    hide Residue;
    if ws == [] {
      ResidueIs(0, 0, 0);
    } else {
      OnesSumIsResidue(ws[1..]);
      var q := ResidueSplits(Sum(ws[1..]));
      var carry := if ws[0] + OnesSum(ws[1..]) >= 65536 then 1 else 0;
      ResidueIs(Sum(ws), q + carry, OnesSum(ws));
    }
  }

  // ---------- the code's sum ----------

  /** sum = (sum >> 16) + (sum & 0xffff); sum += sum >> 16; and the low half of that */
  function Folded(sum: nat): u16 {
    var s := sum / 65536 + sum % 65536;
    (s + s / 65536) % 65536
  }

  /** Two folds are enough for any 32-bit sum. */
  lemma TwoFoldsSuffice(sum: nat)
    requires sum < TWO_32
    ensures Folded(sum) == Residue(sum)
  {
    hide Residue;
    var h, l := sum / 65536, sum % 65536;
    var s := h + l;
    if s < 65536 {
      ResidueIs(sum, h, s);
    } else {
      assert s / 65536 == 1 && (s + 1) % 65536 == s - 65535;
      ResidueIs(sum, h + 1, s - 65535);
    }
  }

  lemma {:induction false} SumBound(ws: seq<u16>)
    ensures Sum(ws) <= 65535 * |ws|
  {
    if ws != [] { SumBound(ws[1..]); }
  }

  lemma LowFits(x: nat)
    requires x < TWO_32
    ensures Low32(x) == x
  {
  }

  /** What the code computes: the sum is kept in 32 bits. */
  function Computed(buf: seq<u8>, big: bool): u16 { 65535 - Folded(Low32(Sum(Words(buf, big)))) }

  // ---------- what the standard asks for ----------

  /** The words of a buffer in network order; an odd last byte Z is paired as [Z,0]. */
  function NetWords(buf: seq<u8>): seq<u16> {
    if buf == [] then []
    else if |buf| == 1 then [Pair(buf[0], 0, true)]
    else [Pair(buf[0], buf[1], true)] + NetWords(buf[2..])
  }

  /** The checksum field in network order. */
  function Standard(buf: seq<u8>): u16 { 65535 - OnesSum(NetWords(buf)) }

  /** The two bytes of a 16-bit word in the memory of a machine. */
  function Stored(w: u16, big: bool): seq<u8> {
    if big then [w / 256, w % 256] else [w % 256, w / 256]
  }

  /** Storing the code's result puts the bytes of the standard's checksum into the buffer. */
  predicate Meets(buf: seq<u8>, big: bool) { Stored(Computed(buf, big), big) == Stored(Standard(buf), true) }

  /** The worked example of section 3 of RFC 1071, whose words sum to ddf2: the checksum stored is 22 0d. */
  lemma WorkedExample(buf: seq<u8>)
    requires buf == [0x00, 0x01, 0xf2, 0x03, 0xf4, 0xf5, 0xf6, 0xf7]
    ensures NetWords(buf) == [0x0001, 0xf203, 0xf4f5, 0xf6f7]
    ensures OnesSum(NetWords(buf)) == 0xddf2 && Stored(Standard(buf), true) == [0x22, 0x0d]
  {
    var b1, b2, b3 := buf[2..], buf[2..][2..], buf[2..][2..][2..];
    assert NetWords(b3) == [0xf6f7] by { assert b3[2..] == []; }
    assert NetWords(b2) == [0xf4f5, 0xf6f7];
    assert NetWords(b1) == [0xf203, 0xf4f5, 0xf6f7];
    assert NetWords(buf) == [0x0001, 0xf203, 0xf4f5, 0xf6f7];
    ExampleSum(NetWords(buf));
  }

  lemma ExampleSum(ws: seq<u16>)
    requires ws == [0x0001, 0xf203, 0xf4f5, 0xf6f7]
    ensures OnesSum(ws) == 0xddf2
  {
    assert OnesSum(ws[3..]) == 0xf6f7 by { assert ws[3..][1..] == []; }
    assert OnesSum(ws[2..]) == 0xebed by { assert ws[2..][1..] == ws[3..]; }
    assert OnesSum(ws[1..]) == 0xddf1 by { assert ws[1..][1..] == ws[2..]; }
  }

  /** A lone byte is a high half: the words of 01 f2 03 are 01f2 and 0300. */
  lemma OddExample(buf: seq<u8>)
    requires buf == [0x01, 0xf2, 0x03]
    ensures NetWords(buf) == [0x01f2, 0x0300]
  {
    assert buf[2..] == [0x03];
  }

  /** The longest buffer whose sum cannot overflow. */
  const LIMIT: nat := 131074

  lemma ComputedIs(buf: seq<u8>, big: bool)
    requires |buf| <= LIMIT
    ensures Sum(Words(buf, big)) < TWO_32
    ensures Computed(buf, big) == 65535 - Residue(Sum(Words(buf, big)))
  {
    hide Folded, Residue, Words, Sum, Low32;
    var ws := Words(buf, big);
    SumBound(ws);
    LowFits(Sum(ws));
    TwoFoldsSuffice(Sum(ws));
  }

  function OddByte(buf: seq<u8>): nat { if |buf| % 2 == 1 then buf[|buf| - 1] else 0 }

  /** The sums of the machine's words and of the network's. */
  lemma {:induction false} BigSum(buf: seq<u8>)
    ensures Sum(NetWords(buf)) == Sum(Words(buf, true)) + 255 * OddByte(buf)
  {
    if |buf| >= 2 { BigSum(buf[2..]); }
  }

  lemma {:induction false} LittleSum(buf: seq<u8>) returns (q: int)
    ensures Sum(NetWords(buf)) == 256 * Sum(Words(buf, false)) - 65535 * q
    ensures Sum(NetWords(buf)) == 0 <==> Sum(Words(buf, false)) == 0
  {
    if |buf| < 2 {
      q := 0;
    } else {
      var p := LittleSum(buf[2..]);
      q := p + buf[1];
    }
  }

  function Swap(w: u16): u16 { (w % 256) * 256 + w / 256 }

  lemma SwapResidue(s: nat, t: nat, q: int)
    requires t == 256 * s - 65535 * q && (t == 0 <==> s == 0)
    ensures Residue(t) == Swap(Residue(s))
  {
    hide Residue;
    var r := Residue(s);
    var p := ResidueSplits(s);
    ResidueIs(t, 256 * p - q + r / 256, Swap(r));
  }

  lemma SwapComplement(w: u16)
    ensures Swap(65535 - w) == 65535 - Swap(w)
  {
    var h, l := w / 256, w % 256;
    ModUnique(256, 255 - h, 255 - l, 65535 - w);
  }

  lemma StoredSwaps(v: u16, w: u16)
    ensures Stored(v, true) == Stored(w, true) <==> v == w
    ensures Stored(v, false) == Stored(w, true) <==> w == Swap(v)
  {
    assert Stored(v, true)[0] == v / 256 && Stored(v, true)[1] == v % 256;
    assert Stored(w, true)[0] == w / 256 && Stored(w, true)[1] == w % 256;
    assert Stored(v, false)[0] == v % 256 && Stored(v, false)[1] == v / 256;
    ModUnique(256, v % 256, v / 256, Swap(v));
  }

  lemma StandardIs(buf: seq<u8>)
    ensures Standard(buf) == 65535 - Residue(Sum(NetWords(buf)))
  {
    hide NetWords, Sum, Residue, OnesSum;
    OnesSumIsResidue(NetWords(buf));
  }

  /** Up to the limit the code meets the standard exactly if the machine is little-endian or no odd last
      byte other than 0 is left over: a big-endian machine should add that byte as a high half. */
  lemma MeetsExactly(buf: seq<u8>, big: bool)
    requires |buf| <= LIMIT
    ensures Meets(buf, big) <==> !big || |buf| % 2 == 0 || buf[|buf| - 1] == 0
  {
    hide Words, NetWords, Sum, Residue, Swap, Stored, Computed, Standard;
    var v := Computed(buf, big);
    ComputedIs(buf, big);
    StandardIs(buf);
    StoredSwaps(v, Standard(buf));
    if big {
      BigSum(buf);
      OddTail(Sum(Words(buf, true)), OddByte(buf));
    } else {
      var q := LittleSum(buf);
      SwapResidue(Sum(Words(buf, false)), Sum(NetWords(buf)), q);
      SwapComplement(Residue(Sum(Words(buf, false))));
    }
  }

  lemma OddTail(s: nat, last: nat)
    requires last < 256
    ensures Residue(s + 255 * last) == Residue(s) <==> last == 0
  {
    hide Residue;
    var p := ResidueSplits(s);
    var o := ResidueSplits(s + 255 * last);
  }

  /** stress_net_ipv4_checksum, on a machine of either byte order. */
  method Ipv4Checksum(ptr: Option<seq<u8>>, big: bool) returns (r: u16)
    ensures ptr.None? ==> r == 0
    ensures ptr.Some? ==> r == Computed(ptr.value, big)
    ensures ptr.Some? && |ptr.value| <= LIMIT ==>
              (Stored(r, big) == Stored(Standard(ptr.value), true) <==>
               !big || |ptr.value| % 2 == 0 || ptr.value[|ptr.value| - 1] == 0)
  {
    hide Words, Sum, Low32, Standard, Stored;
    if ptr.None? {
      return 0;
    }
    var sum := WordSum(ptr.value, big);
    if |ptr.value| <= LIMIT { MeetsExactly(ptr.value, big); }
    sum := sum / 65536 + sum % 65536;
    sum := sum + sum / 65536;
    r := 65535 - sum % 65536;
  }

  /** Its loop. */
  method WordSum(buf: seq<u8>, big: bool) returns (sum: nat)
    ensures sum == Low32(Sum(Words(buf, big)))
  {
    hide Words, Sum, Pair, Low32;
    sum := 0;
    var pos: nat, n: nat := 0, |buf|;
    assert buf[0..] == buf;
    while n > 1
      invariant n + pos == |buf| && sum < TWO_32
      invariant Low32(sum + Sum(Words(buf[pos..], big))) == Low32(Sum(Words(buf, big)))
    {
      var word := Pair(buf[pos], buf[pos + 1], big);
      SumStep(buf, pos, big);
      ModAgain(sum + word, Sum(Words(buf[pos + 2..], big)));
      sum := Low32(sum + word);
      pos := pos + 2;
      n := n - 2;
    }
    SumLast(buf, pos, big);
    LowFits(sum);
    if n > 0 {
      sum := Low32(sum + buf[pos]);
    }
  }

  lemma SumStep(buf: seq<u8>, pos: nat, big: bool)
    requires pos + 1 < |buf|
    ensures Sum(Words(buf[pos..], big)) == Pair(buf[pos], buf[pos + 1], big) + Sum(Words(buf[pos + 2..], big))
  {
    assert buf[pos..][2..] == buf[pos + 2..];
  }

  lemma SumLast(buf: seq<u8>, pos: nat, big: bool)
    requires |buf| - 1 <= pos <= |buf|
    ensures Sum(Words(buf[pos..], big)) == if pos < |buf| then buf[pos] else 0
  {
  }

  lemma ModAgain(a: nat, b: nat)
    ensures Low32(Low32(a) + b) == Low32(a + b)
  {
    ModAdd(TWO_32, a / TWO_32, a % TWO_32 + b);
  }

  // ---------- the size limit is exact ----------

  /** sum of 65537 words of all ones, and then a one. */
  function Overflowing(n: nat): (buf: seq<u8>)
    ensures |buf| == n
  {
    seq(n, i => if i < LIMIT then 255 else if i == LIMIT then 1 else 0)
  }

  lemma {:induction false} TailSum(n: nat, k: nat, big: bool)
    requires k <= n && k % 2 == 0 && n > LIMIT
    ensures Sum(Words(Overflowing(n)[k..], big))
         == if k <= LIMIT then 65535 * ((LIMIT - k) / 2) + (if big && n > LIMIT + 1 then 256 else 1) else 0
    decreases n - k
  {
    hide Words, Sum;
    if k + 1 < n {
      SumStep(Overflowing(n), k, big);
      TailSum(n, k + 2, big);
    } else {
      SumLast(Overflowing(n), k, big);
    }
  }

  lemma SumOfOverflowing(n: nat, big: bool)
    requires n > LIMIT
    ensures Sum(Words(Overflowing(n), big)) == TWO_32 - 1 + if big && n > LIMIT + 1 then 256 else 1
  {
    hide Words, Sum;
    assert Overflowing(n)[0..] == Overflowing(n);
    TailSum(n, 0, big);
  }

  lemma ComputedOverflowing(n: nat, big: bool)
    requires n > LIMIT
    ensures var extra := if big && n > LIMIT + 1 then 256 else 1;
            Computed(Overflowing(n), big) == 65535 - Residue(extra - 1)
  {
    hide Folded, Residue, Words, Sum, Overflowing;
    var extra := if big && n > LIMIT + 1 then 256 else 1;
    SumOfOverflowing(n, big);
    ModUnique(TWO_32, 1, extra - 1, TWO_32 - 1 + extra);
    TwoFoldsSuffice(extra - 1);
  }

  /** Too long a buffer whose sum overflows is given a wrong checksum. */
  lemma WrongAbove(n: nat, big: bool)
    requires n > LIMIT && (big ==> n % 2 == 0)
    ensures !Meets(Overflowing(n), big)
  {
    hide Folded, Residue, Words, NetWords, Sum, Overflowing, Swap, Stored, Computed, Standard;
    var buf := Overflowing(n);
    var extra := if big && n > LIMIT + 1 then 256 else 1;
    SumOfOverflowing(n, big);
    ComputedOverflowing(n, big);
    StandardIs(buf);
    StoredSwaps(Computed(buf, big), Standard(buf));
    ResidueIs(extra - 1, 0, extra - 1);
    ResidueIs(TWO_32 - 1 + extra, 65537, extra);
    if big {
      BigSum(buf);
    } else {
      var q := LittleSum(buf);
      SwapResidue(Sum(Words(buf, false)), Sum(NetWords(buf)), q);
      SwapOfOne(Computed(buf, false));
    }
  }

  lemma SwapOfOne(v: u16)
    ensures v == 65535 ==> Swap(v) != 65535 - Swap(1)
  {
  }

  /** A buffer of zeros with a last byte of 1. */
  function LoneByte(n: nat): (buf: seq<u8>)
    ensures |buf| == n
  {
    seq(n, i => if i == n - 1 then 1 else 0)
  }

  lemma {:induction false} LoneSum(n: nat)
    requires n % 2 == 1
    ensures Sum(Words(LoneByte(n), true)) == 1
    ensures OddByte(LoneByte(n)) == 1
  {
    if n > 1 {
      assert LoneByte(n)[2..] == LoneByte(n - 2);
      LoneSum(n - 2);
    }
  }

  lemma WrongWhenOdd(n: nat)
    requires n % 2 == 1
    ensures !Meets(LoneByte(n), true)
  {
    hide Residue, Words, NetWords, Sum, Stored, LoneByte;
    var buf := LoneByte(n);
    LoneSum(n);
    BigSum(buf);
    TwoFoldsSuffice(1);
    StandardIs(buf);
    ResidueIs(1, 0, 1);
    ResidueIs(256, 0, 256);
    StoredSwaps(Computed(buf, true), Standard(buf));
  }

  /** The code computes the standard's checksum of all buffers of a size exactly up to 131074 bytes, and
      on a big-endian machine only for even sizes. */
  lemma CorrectExactly(n: nat, big: bool)
    ensures (forall buf: seq<u8> | |buf| == n :: Meets(buf, big)) <==> n <= 131074 && (!big || n % 2 == 0)
  {
    hide Meets;
    if n <= LIMIT && (!big || n % 2 == 0) {
      forall buf: seq<u8> | |buf| == n ensures Meets(buf, big) { MeetsExactly(buf, big); }
    } else if big && n % 2 == 1 {
      WrongWhenOdd(n);
    } else {
      WrongAbove(n, big);
    }
  }

  // ---------- checking a buffer that holds its checksum ----------

  lemma {:induction false} SumAfterStore(ws: seq<u16>, k: nat, c: u16)
    requires k < |ws| && ws[k] == 0
    ensures Sum(ws[k := c]) == Sum(ws) + c
  {
    if k > 0 {
      assert ws[k := c][1..] == ws[1..][k - 1 := c];
      SumAfterStore(ws[1..], k - 1, c);
    } else {
      assert ws[0 := c][1..] == ws[1..];
    }
  }

  /** A buffer with word k replaced, in the machine's byte order. */
  function Store(buf: seq<u8>, k: nat, c: u16, big: bool): (out: seq<u8>)
    requires 2 * k + 1 < |buf|
    ensures |out| == |buf|
  {
    buf[2 * k := Stored(c, big)[0]][2 * k + 1 := Stored(c, big)[1]]
  }

  lemma {:induction false} StoreWord(buf: seq<u8>, k: nat, c: u16, big: bool)
    requires 2 * k + 1 < |buf|
    ensures Words(Store(buf, k, c, big), big) == Words(buf, big)[k := c]
  {
    var out := Store(buf, k, c, big);
    if k > 0 {
      assert out[2..] == Store(buf[2..], k - 1, c, big);
      StoreWord(buf[2..], k - 1, c, big);
    } else {
      assert out[2..] == buf[2..];
    }
  }

  lemma ComplementCompletes(s: nat)
    ensures Residue(s + (65535 - Residue(s))) == 65535
  {
    hide Residue;
    var q := ResidueSplits(s);
    if Residue(s) == 0 { assert s == 0; }
    ResidueIs(s + (65535 - Residue(s)), q, 65535);
  }

  /** Storing the checksum in a zeroed word makes the checksum of the whole buffer 0. */
  lemma StoredChecksumVerifies(buf: seq<u8>, k: nat, big: bool)
    requires |buf| <= LIMIT && 2 * k + 1 < |buf| && Words(buf, big)[k] == 0
    ensures Computed(Store(buf, k, Computed(buf, big), big), big) == 0
  {
    hide Words, Sum, Residue, Folded, Computed;
    var c := Computed(buf, big);
    StoreWord(buf, k, c, big);
    SumAfterStore(Words(buf, big), k, c);
    ComputedIs(buf, big);
    ComputedIs(Store(buf, k, c, big), big);
    ComplementCompletes(Sum(Words(buf, big)));
  }

  // ---------- the order of the words, and of the bytes in them ----------

  lemma {:induction false} SumTake(ws: seq<u16>, i: nat)
    requires i < |ws|
    ensures Sum(ws) == ws[i] + Sum(ws[..i] + ws[i + 1..])
  {
    if i == 0 {
      assert ws[..0] + ws[1..] == ws[1..];
    } else {
      SumTake(ws[1..], i - 1);
      assert (ws[..i] + ws[i + 1..])[1..] == ws[1..][..i - 1] + ws[1..][i..];
    }
  }

  lemma {:induction false} SumOfMultiset(a: seq<u16>, b: seq<u16>)
    requires multiset(a) == multiset(b)
    ensures Sum(a) == Sum(b)
  {
    hide Sum;
    if a == [] {
      assert b == [] by { assert |multiset(b)| == 0; }
    } else {
      assert a[0] in multiset(a);
      var i :| 0 <= i < |b| && b[i] == a[0];
      SumTake(a, 0);
      SumTake(b, i);
      Without(a, 0);
      Without(b, i);
      SumOfMultiset(a[..0] + a[1..], b[..i] + b[i + 1..]);
    }
  }

  lemma Without(ws: seq<u16>, i: nat)
    requires i < |ws|
    ensures multiset(ws[..i] + ws[i + 1..]) == multiset(ws) - multiset{ws[i]}
  {
    assert ws == ws[..i] + [ws[i]] + ws[i + 1..];
  }

  /** The order of the words does not matter. */
  lemma WordOrderIrrelevant(a: seq<u8>, b: seq<u8>, big: bool)
    requires multiset(Words(a, big)) == multiset(Words(b, big))
    ensures Computed(a, big) == Computed(b, big)
  {
    SumOfMultiset(Words(a, big), Words(b, big));
  }

  /** Section 2 (B) of RFC 1071: machines of both byte orders store the same bytes. The code keeps this
      exactly when the size is even or the last byte is zero. */
  lemma ByteOrderExactly(buf: seq<u8>)
    requires |buf| <= LIMIT
    ensures Stored(Computed(buf, true), true) == Stored(Computed(buf, false), false)
       <==> |buf| % 2 == 0 || buf[|buf| - 1] == 0
  {
    MeetsExactly(buf, true);
    MeetsExactly(buf, false);
  }
}
