/** 32-bit registers: exclusive or, and four bytes of memory read as one word. */
module Registers {
  function Xor(x: bv32, y: bv32): bv32 { x ^ y }

  lemma XorInverse(x: bv32, y: bv32)
    ensures Xor(Xor(x, y), y) == x
  {
    calc { Xor(Xor(x, y), y); Xor(x ^ y, y); x; }
  }

  lemma XorSwap(x: bv32, y: bv32)
    ensures Xor(x, y) == Xor(y, x)
  {
  }

  function Byte(b: bv8): bv32 { b as bv32 }

  /** memcpy of four bytes into a word on a little-endian machine, and on a big-endian one. */
  function LoadLE(b: seq<bv8>): bv32
    requires |b| == 4
  {
    Byte(b[0]) | (Byte(b[1]) << 8) | (Byte(b[2]) << 16) | (Byte(b[3]) << 24)
  }

  function LoadBE(b: seq<bv8>): bv32
    requires |b| == 4
  {
    (Byte(b[0]) << 24) | (Byte(b[1]) << 16) | (Byte(b[2]) << 8) | Byte(b[3])
  }

  /** (val >> (8 * n)) & 0xff */
  function Lane0(val: bv32): bv8 { (val & 0xff) as bv8 }
  function Lane1(val: bv32): bv8 { ((val >> 8) & 0xff) as bv8 }
  function Lane2(val: bv32): bv8 { ((val >> 16) & 0xff) as bv8 }
  function Lane3(val: bv32): bv8 { ((val >> 24) & 0xff) as bv8 }

  lemma LanesLE(b: seq<bv8>)
    requires |b| == 4
    ensures var v := LoadLE(b); [Lane0(v), Lane1(v), Lane2(v), Lane3(v)] == b
  {
    RawLanes(b[0], b[1], b[2], b[3]);
  }

  lemma LanesBE(b: seq<bv8>)
    requires |b| == 4
    ensures var v := LoadBE(b); [Lane3(v), Lane2(v), Lane1(v), Lane0(v)] == b
  {
    RawLanes(b[3], b[2], b[1], b[0]);
  }

  lemma RawLanes(b0: bv8, b1: bv8, b2: bv8, b3: bv8)
    ensures var v := Byte(b0) | (Byte(b1) << 8) | (Byte(b2) << 16) | (Byte(b3) << 24);
            Lane0(v) == b0 && Lane1(v) == b1 && Lane2(v) == b2 && Lane3(v) == b3
    ensures var v := (Byte(b3) << 24) | (Byte(b2) << 16) | (Byte(b1) << 8) | Byte(b0);
            Lane0(v) == b0 && Lane1(v) == b1 && Lane2(v) == b2 && Lane3(v) == b3
  {
  }

  /** memcpy of four bytes into a word on a machine of either byte order. */
  function Load(b: seq<bv8>, big: bool): bv32
    requires |b| == 4
  {
    if big then LoadBE(b) else LoadLE(b)
  }

  lemma LoadInjective(a: seq<bv8>, b: seq<bv8>, big: bool)
    requires |a| == |b| == 4 && Load(a, big) == Load(b, big)
    ensures a == b
  {
    hide LoadBE, LoadLE, Lane0, Lane1, Lane2, Lane3;
    if big {
      LanesBE(a);
      LanesBE(b);
    } else {
      LanesLE(a);
      LanesLE(b);
    }
  }
}
