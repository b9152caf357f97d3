/** The table-driven CRC-32C of a C string, against the bit-at-a-time reflected definition with the
    Castagnoli polynomial (section 12.1 of RFC 3720).

    Exclusive or and the shift by one are named, so that proofs about whole registers reason with
    equalities and only the lemmas called Raw... look at bits. */
module Crc32c {
  import opened CStrings
  import opened Registers

  // ---------- the definition, one bit at a time ----------

  function Half(x: bv32): bv32 { x >> 1 }

  predicate LowBit(x: bv32) { x & 1 != 0 }

  /** Shift the register by one position; 0x82f63b78 is the polynomial with its bits reflected. */
  function BitStep(x: bv32): bv32 {
    if x & 1 == 1 then (x >> 1) ^ 0x82f63b78 else x >> 1
  }

  function FeedBit(crc: bv32, bit: bool): bv32 {
    if bit then BitStep(crc ^ 1) else BitStep(crc)
  }

  function Feed(crc: bv32, bits: seq<bool>): bv32
    decreases |bits|
  {
    if bits == [] then crc else Feed(FeedBit(crc, bits[0]), bits[1..])
  }

  /** The n low bits of a word in transmission order: least significant first. */
  function LowBits(n: nat, x: bv32): (bits: seq<bool>)
    ensures |bits| == n
  {
    if n == 0 then [] else [LowBit(x)] + LowBits(n - 1, Half(x))
  }

  function Bits(s: seq<bv8>): (bits: seq<bool>)
    ensures |bits| == 8 * |s|
  {
    if s == [] then [] else LowBits(8, s[0] as bv32) + Bits(s[1..])
  }

  function Crc(s: seq<bv8>): bv32 {
    !Feed(0xffff_ffff, Bits(s))
  }

  // ---------- the lookup table, row by row ----------

  const ROW_0: seq<bv32> := [
    0x00000000, 0xf26b8303, 0xe13b70f7, 0x1350f3f4,
    0xc79a971f, 0x35f1141c, 0x26a1e7e8, 0xd4ca64eb,
    0x8ad958cf, 0x78b2dbcc, 0x6be22838, 0x9989ab3b,
    0x4d43cfd0, 0xbf284cd3, 0xac78bf27, 0x5e133c24]
  const ROW_1: seq<bv32> := [
    0x105ec76f, 0xe235446c, 0xf165b798, 0x030e349b,
    0xd7c45070, 0x25afd373, 0x36ff2087, 0xc494a384,
    0x9a879fa0, 0x68ec1ca3, 0x7bbcef57, 0x89d76c54,
    0x5d1d08bf, 0xaf768bbc, 0xbc267848, 0x4e4dfb4b]
  const ROW_2: seq<bv32> := [
    0x20bd8ede, 0xd2d60ddd, 0xc186fe29, 0x33ed7d2a,
    0xe72719c1, 0x154c9ac2, 0x061c6936, 0xf477ea35,
    0xaa64d611, 0x580f5512, 0x4b5fa6e6, 0xb93425e5,
    0x6dfe410e, 0x9f95c20d, 0x8cc531f9, 0x7eaeb2fa]
  const ROW_3: seq<bv32> := [
    0x30e349b1, 0xc288cab2, 0xd1d83946, 0x23b3ba45,
    0xf779deae, 0x05125dad, 0x1642ae59, 0xe4292d5a,
    0xba3a117e, 0x4851927d, 0x5b016189, 0xa96ae28a,
    0x7da08661, 0x8fcb0562, 0x9c9bf696, 0x6ef07595]
  const ROW_4: seq<bv32> := [
    0x417b1dbc, 0xb3109ebf, 0xa0406d4b, 0x522bee48,
    0x86e18aa3, 0x748a09a0, 0x67dafa54, 0x95b17957,
    0xcba24573, 0x39c9c670, 0x2a993584, 0xd8f2b687,
    0x0c38d26c, 0xfe53516f, 0xed03a29b, 0x1f682198]
  const ROW_5: seq<bv32> := [
    0x5125dad3, 0xa34e59d0, 0xb01eaa24, 0x42752927,
    0x96bf4dcc, 0x64d4cecf, 0x77843d3b, 0x85efbe38,
    0xdbfc821c, 0x2997011f, 0x3ac7f2eb, 0xc8ac71e8,
    0x1c661503, 0xee0d9600, 0xfd5d65f4, 0x0f36e6f7]
  const ROW_6: seq<bv32> := [
    0x61c69362, 0x93ad1061, 0x80fde395, 0x72966096,
    0xa65c047d, 0x5437877e, 0x4767748a, 0xb50cf789,
    0xeb1fcbad, 0x197448ae, 0x0a24bb5a, 0xf84f3859,
    0x2c855cb2, 0xdeeedfb1, 0xcdbe2c45, 0x3fd5af46]
  const ROW_7: seq<bv32> := [
    0x7198540d, 0x83f3d70e, 0x90a324fa, 0x62c8a7f9,
    0xb602c312, 0x44694011, 0x5739b3e5, 0xa55230e6,
    0xfb410cc2, 0x092a8fc1, 0x1a7a7c35, 0xe811ff36,
    0x3cdb9bdd, 0xceb018de, 0xdde0eb2a, 0x2f8b6829]
  const ROW_8: seq<bv32> := [
    0x82f63b78, 0x709db87b, 0x63cd4b8f, 0x91a6c88c,
    0x456cac67, 0xb7072f64, 0xa457dc90, 0x563c5f93,
    0x082f63b7, 0xfa44e0b4, 0xe9141340, 0x1b7f9043,
    0xcfb5f4a8, 0x3dde77ab, 0x2e8e845f, 0xdce5075c]
  const ROW_9: seq<bv32> := [
    0x92a8fc17, 0x60c37f14, 0x73938ce0, 0x81f80fe3,
    0x55326b08, 0xa759e80b, 0xb4091bff, 0x466298fc,
    0x1871a4d8, 0xea1a27db, 0xf94ad42f, 0x0b21572c,
    0xdfeb33c7, 0x2d80b0c4, 0x3ed04330, 0xccbbc033]
  const ROW_A: seq<bv32> := [
    0xa24bb5a6, 0x502036a5, 0x4370c551, 0xb11b4652,
    0x65d122b9, 0x97baa1ba, 0x84ea524e, 0x7681d14d,
    0x2892ed69, 0xdaf96e6a, 0xc9a99d9e, 0x3bc21e9d,
    0xef087a76, 0x1d63f975, 0x0e330a81, 0xfc588982]
  const ROW_B: seq<bv32> := [
    0xb21572c9, 0x407ef1ca, 0x532e023e, 0xa145813d,
    0x758fe5d6, 0x87e466d5, 0x94b49521, 0x66df1622,
    0x38cc2a06, 0xcaa7a905, 0xd9f75af1, 0x2b9cd9f2,
    0xff56bd19, 0x0d3d3e1a, 0x1e6dcdee, 0xec064eed]
  const ROW_C: seq<bv32> := [
    0xc38d26c4, 0x31e6a5c7, 0x22b65633, 0xd0ddd530,
    0x0417b1db, 0xf67c32d8, 0xe52cc12c, 0x1747422f,
    0x49547e0b, 0xbb3ffd08, 0xa86f0efc, 0x5a048dff,
    0x8ecee914, 0x7ca56a17, 0x6ff599e3, 0x9d9e1ae0]
  const ROW_D: seq<bv32> := [
    0xd3d3e1ab, 0x21b862a8, 0x32e8915c, 0xc083125f,
    0x144976b4, 0xe622f5b7, 0xf5720643, 0x07198540,
    0x590ab964, 0xab613a67, 0xb831c993, 0x4a5a4a90,
    0x9e902e7b, 0x6cfbad78, 0x7fab5e8c, 0x8dc0dd8f]
  const ROW_E: seq<bv32> := [
    0xe330a81a, 0x115b2b19, 0x020bd8ed, 0xf0605bee,
    0x24aa3f05, 0xd6c1bc06, 0xc5914ff2, 0x37faccf1,
    0x69e9f0d5, 0x9b8273d6, 0x88d28022, 0x7ab90321,
    0xae7367ca, 0x5c18e4c9, 0x4f48173d, 0xbd23943e]
  const ROW_F: seq<bv32> := [
    0xf36e6f75, 0x0105ec76, 0x12551f82, 0xe03e9c81,
    0x34f4f86a, 0xc69f7b69, 0xd5cf889d, 0x27a40b9e,
    0x79b737ba, 0x8bdcb4b9, 0x988c474d, 0x6ae7c44e,
    0xbe2da0a5, 0x4c4623a6, 0x5f16d052, 0xad7d5351]

  const TABLE: seq<seq<bv32>> := [
    ROW_0, ROW_1, ROW_2, ROW_3, ROW_4, ROW_5, ROW_6, ROW_7,
    ROW_8, ROW_9, ROW_A, ROW_B, ROW_C, ROW_D, ROW_E, ROW_F]

  /** crc32c_table[i]. */
  function Entry(i: bv8): bv32 {
    TABLE[(i >> 4) as nat][(i & 15) as nat]
  }

  function Steps(n: nat, x: bv32): bv32 {
    if n == 0 then x else Steps(n - 1, BitStep(x))
  }

  function Shift(n: nat, x: bv32): bv32 {
    if n == 0 then x else Shift(n - 1, Half(x))
  }

  // ---------- the register is a linear bijection ----------

  lemma RawPeelSetSet(c: bv32, w: bv32)
    requires LowBit(w) && LowBit(c)
    ensures BitStep(c ^ w) == BitStep(c ^ 1) ^ (w >> 1)
  {
  }

  lemma RawPeelSetClear(c: bv32, w: bv32)
    requires LowBit(w) && !LowBit(c)
    ensures BitStep(c ^ w) == BitStep(c ^ 1) ^ (w >> 1)
  {
  }

  lemma RawPeelClearSet(c: bv32, w: bv32)
    requires !LowBit(w) && LowBit(c)
    ensures BitStep(c ^ w) == BitStep(c) ^ (w >> 1)
  {
  }

  lemma RawPeelClearClear(c: bv32, w: bv32)
    requires !LowBit(w) && !LowBit(c)
    ensures BitStep(c ^ w) == BitStep(c) ^ (w >> 1)
  {
  }

  lemma PeelSet(c: bv32, w: bv32)
    requires LowBit(w)
    ensures BitStep(Xor(c, w)) == Xor(BitStep(c ^ 1), Half(w))
  {
    calc {
      BitStep(Xor(c, w));
      BitStep(c ^ w);
      { if LowBit(c) { RawPeelSetSet(c, w); } else { RawPeelSetClear(c, w); } }
      BitStep(c ^ 1) ^ (w >> 1);
      Xor(BitStep(c ^ 1), w >> 1);
      Xor(BitStep(c ^ 1), Half(w));
    }
  }

  lemma PeelClear(c: bv32, w: bv32)
    requires !LowBit(w)
    ensures BitStep(Xor(c, w)) == Xor(BitStep(c), Half(w))
  {
    calc {
      BitStep(Xor(c, w));
      BitStep(c ^ w);
      { if LowBit(c) { RawPeelClearSet(c, w); } else { RawPeelClearClear(c, w); } }
      BitStep(c) ^ (w >> 1);
      Xor(BitStep(c), w >> 1);
      Xor(BitStep(c), Half(w));
    }
  }

  /** The low bit of w decides the step; the rest of w just moves down. */
  lemma PeelBit(c: bv32, w: bv32)
    ensures BitStep(Xor(c, w)) == Xor(FeedBit(c, LowBit(w)), Half(w))
  {
    if LowBit(w) {
      PeelSet(c, w);
    } else {
      PeelClear(c, w);
    }
  }

  lemma {:induction false} StepsPeel(n: nat, c: bv32, w: bv32)
    ensures Steps(n, Xor(c, w)) == Xor(Feed(c, LowBits(n, w)), Shift(n, w))
  {
    if n > 0 {
      PeelBit(c, w);
      StepsPeel(n - 1, FeedBit(c, LowBit(w)), Half(w));
      assert LowBits(n, w)[1..] == LowBits(n - 1, Half(w));
    }
  }

  lemma RawLinear(x: bv32, y: bv32)
    ensures BitStep(x ^ y) == BitStep(x) ^ BitStep(y)
  {
    if LowBit(x) {
      if LowBit(y) {} else {}
    } else {
      if LowBit(y) {} else {}
    }
  }
  lemma {:induction false} StepsLinear(n: nat, x: bv32, y: bv32)
    ensures Steps(n, Xor(x, y)) == Xor(Steps(n, x), Steps(n, y))
  {
    if n > 0 {
      assert BitStep(Xor(x, y)) == Xor(BitStep(x), BitStep(y)) by { RawLinear(x, y); }
      StepsLinear(n - 1, BitStep(x), BitStep(y));
    }
  }

  lemma RawShiftEight(w: bv32)
    ensures Half(Half(Half(Half(Half(Half(Half(Half(w)))))))) == Down(w)
  {
  }

  lemma ShiftEight(w: bv32)
    ensures Shift(8, w) == Down(w)
  {
    var h1 := Half(w); var h2 := Half(h1); var h3 := Half(h2); var h4 := Half(h3);
    var h5 := Half(h4); var h6 := Half(h5); var h7 := Half(h6); var h8 := Half(h7);
    assert Shift(8, w) == Shift(7, h1) == Shift(6, h2) == Shift(5, h3) == Shift(4, h4);
    assert Shift(4, h4) == Shift(3, h5) == Shift(2, h6) == Shift(1, h7) == Shift(0, h8);
    RawShiftEight(w);
  }

  /** Feeding n bits that are all zero is n plain steps. */
  predicate Zeros(bits: seq<bool>) { forall i :: 0 <= i < |bits| ==> !bits[i] }

  lemma {:induction false} FeedZeros(c: bv32, bits: seq<bool>)
    requires Zeros(bits)
    ensures Feed(c, bits) == Steps(|bits|, c)
    decreases |bits|
  {
    if bits != [] {
      assert !bits[0];
      assert FeedBit(c, bits[0]) == BitStep(c);
      FeedZeros(BitStep(c), bits[1..]);
    }
  }

  /** m has ones exactly in its n low positions. */
  predicate LowMask(n: nat, m: bv32) {
    if n == 0 then m == 0 else LowBit(m) && LowMask(n - 1, Half(m))
  }

  lemma RawMask(w: bv32, m: bv32)
    requires w & m == 0 && LowBit(m)
    ensures !LowBit(w) && Half(w) & Half(m) == 0
  {
  }

  lemma {:induction false} MaskedLowBits(n: nat, w: bv32, m: bv32)
    requires LowMask(n, m) && w & m == 0
    ensures Zeros(LowBits(n, w))
  {
    if n > 0 {
      RawMask(w, m);
      MaskedLowBits(n - 1, Half(w), Half(m));
    }
  }

  lemma ByteMask()
    ensures LowMask(8, 0xff)
  {
  }

  lemma RawInj(x: bv32, y: bv32)
    requires BitStep(x) == BitStep(y)
    ensures x == y
  {
  }

  // ---------- the table holds eight steps of every byte ----------

  /** Sixteen consecutive table entries follow from the first of them and row 0. */
  function RowFrom(base: bv32): seq<bv32> {
    [Xor(base, ROW_0[0]), Xor(base, ROW_0[1]), Xor(base, ROW_0[2]), Xor(base, ROW_0[3]),
     Xor(base, ROW_0[4]), Xor(base, ROW_0[5]), Xor(base, ROW_0[6]), Xor(base, ROW_0[7]),
     Xor(base, ROW_0[8]), Xor(base, ROW_0[9]), Xor(base, ROW_0[10]), Xor(base, ROW_0[11]),
     Xor(base, ROW_0[12]), Xor(base, ROW_0[13]), Xor(base, ROW_0[14]), Xor(base, ROW_0[15])]
  }

  /** The first column. */
  function Column(r: bv4): bv32 {
    match r
    case 0x0 => 0x00000000
    case 0x1 => 0x105ec76f
    case 0x2 => 0x20bd8ede
    case 0x3 => 0x30e349b1
    case 0x4 => 0x417b1dbc
    case 0x5 => 0x5125dad3
    case 0x6 => 0x61c69362
    case 0x7 => 0x7198540d
    case 0x8 => 0x82f63b78
    case 0x9 => 0x92a8fc17
    case 0xA => 0xa24bb5a6
    case 0xB => 0xb21572c9
    case 0xC => 0xc38d26c4
    case 0xD => 0xd3d3e1ab
    case 0xE => 0xe330a81a
    case _ => 0xf36e6f75
  }

  lemma RowsLow()
    ensures ROW_0 == RowFrom(0x00000000)
    ensures ROW_1 == RowFrom(0x105ec76f)
    ensures ROW_2 == RowFrom(0x20bd8ede)
    ensures ROW_3 == RowFrom(0x30e349b1)
    ensures ROW_4 == RowFrom(0x417b1dbc)
    ensures ROW_5 == RowFrom(0x5125dad3)
    ensures ROW_6 == RowFrom(0x61c69362)
    ensures ROW_7 == RowFrom(0x7198540d)
  {
  }

  lemma RowsHigh()
    ensures ROW_8 == RowFrom(0x82f63b78)
    ensures ROW_9 == RowFrom(0x92a8fc17)
    ensures ROW_A == RowFrom(0xa24bb5a6)
    ensures ROW_B == RowFrom(0xb21572c9)
    ensures ROW_C == RowFrom(0xc38d26c4)
    ensures ROW_D == RowFrom(0xd3d3e1ab)
    ensures ROW_E == RowFrom(0xe330a81a)
    ensures ROW_F == RowFrom(0xf36e6f75)
  {
  }

  lemma TableRow(r: bv4)
    ensures TABLE[r as nat] == RowFrom(Column(r))
  {
    hide RowFrom, Xor;
    RowsLow();
    RowsHigh();
  }

  lemma Column0To7()
    ensures Column(0x0) == Steps(8, 0x00)
    ensures Column(0x1) == Steps(8, 0x10)
    ensures Column(0x2) == Steps(8, 0x20)
    ensures Column(0x3) == Steps(8, 0x30)
    ensures Column(0x4) == Steps(8, 0x40)
    ensures Column(0x5) == Steps(8, 0x50)
    ensures Column(0x6) == Steps(8, 0x60)
    ensures Column(0x7) == Steps(8, 0x70)
  {
  }

  lemma Column8ToB()
    ensures Column(0x8) == Steps(8, 0x80)
    ensures Column(0x9) == Steps(8, 0x90)
    ensures Column(0xA) == Steps(8, 0xA0)
    ensures Column(0xB) == Steps(8, 0xB0)
  {
  }

  lemma ColumnCToD()
    ensures Column(0xC) == Steps(8, 0xC0)
    ensures Column(0xD) == Steps(8, 0xD0)
  {
  }

  lemma ColumnEToF()
    ensures Column(0xE) == Steps(8, 0xE0)
    ensures Column(0xF) == Steps(8, 0xF0)
  {
  }

  lemma ColumnSteps(r: bv4)
    ensures Column(r) == Steps(8, (r as bv32) << 4)
  {
    Column0To7();
    Column8ToB();
    ColumnCToD();
    ColumnEToF();
    match r
    case 0x0 => assert (r as bv32) << 4 == 0x00;
    case 0x1 => assert (r as bv32) << 4 == 0x10;
    case 0x2 => assert (r as bv32) << 4 == 0x20;
    case 0x3 => assert (r as bv32) << 4 == 0x30;
    case 0x4 => assert (r as bv32) << 4 == 0x40;
    case 0x5 => assert (r as bv32) << 4 == 0x50;
    case 0x6 => assert (r as bv32) << 4 == 0x60;
    case 0x7 => assert (r as bv32) << 4 == 0x70;
    case 0x8 => assert (r as bv32) << 4 == 0x80;
    case 0x9 => assert (r as bv32) << 4 == 0x90;
    case 0xA => assert (r as bv32) << 4 == 0xA0;
    case 0xB => assert (r as bv32) << 4 == 0xB0;
    case 0xC => assert (r as bv32) << 4 == 0xC0;
    case 0xD => assert (r as bv32) << 4 == 0xD0;
    case 0xE => assert (r as bv32) << 4 == 0xE0;
    case _ => assert (r as bv32) << 4 == 0xF0;
  }

  lemma FirstRow()
    ensures ROW_0 == [Steps(8, 0), Steps(8, 1), Steps(8, 2), Steps(8, 3),
                      Steps(8, 4), Steps(8, 5), Steps(8, 6), Steps(8, 7),
                      Steps(8, 8), Steps(8, 9), Steps(8, 10), Steps(8, 11),
                      Steps(8, 12), Steps(8, 13), Steps(8, 14), Steps(8, 15)]
  {
  }

  lemma FirstRowEntry(c: bv4)
    ensures ROW_0[c as nat] == Steps(8, c as bv32)
  {
    hide Steps;
    FirstRow();
  }

  lemma RowEntry(base: bv32, c: nat)
    requires c < 16
    ensures RowFrom(base)[c] == Xor(base, ROW_0[c])
  {
    hide Xor;
  }

  lemma RawNibbles(i: bv8)
    ensures Xor((((i >> 4) as bv4) as bv32) << 4, ((i & 15) as bv4) as bv32) == i as bv32
  {
  }

  /** The whole table is what the comment above it in the source says: eight bit steps of the index. */
  lemma EntryIsEightSteps(i: bv8)
    ensures Entry(i) == Steps(8, i as bv32)
  {
    var r, c := (i >> 4) as bv4, (i & 15) as bv4;
    TableRow(r);
    ColumnSteps(r);
    RowEntry(Column(r), c as nat);
    FirstRowEntry(c);
    StepsLinear(8, (r as bv32) << 4, c as bv32);
    RawNibbles(i);
  }

  // ---------- a table step is eight bits of the definition ----------

  /** One iteration of the loop. */
  function TableStep(crc: bv32, val: bv8): bv32 {
    Xor(Down(crc), Entry(LowByte(Xor(crc, val as bv32))))
  }

  /** The high bits of the register pass through a byte step unchanged. */
  lemma StepsHigh(lo: bv32, hi: bv32)
    requires hi & 0xff == 0
    ensures Steps(8, Xor(lo, hi)) == Xor(Steps(8, lo), Shift(8, hi))
  {
    StepsPeel(8, lo, hi);
    ByteMask();
    MaskedLowBits(8, hi, 0xff);
    FeedZeros(lo, LowBits(8, hi));
  }

  function LowByte(x: bv32): bv8 { (x & 0xff) as bv8 }

  function HighBytes(x: bv32): bv32 { x & 0xffff_ff00 }

  function Down(x: bv32): bv32 { x >> 8 }

  lemma RawSplit(x: bv32)
    ensures Xor(LowByte(x) as bv32, HighBytes(x)) == x
    ensures Down(HighBytes(x)) == Down(x)
    ensures HighBytes(x) & 0xff == 0
  {
  }

  /** Eight steps of a register are its table entry and the register moved down a byte. */
  lemma StepsByEntry(x: bv32)
    ensures Steps(8, x) == Xor(Entry(LowByte(x)), Down(x))
  {
    calc {
      Steps(8, x);
      { RawSplit(x); }
      Steps(8, Xor(LowByte(x) as bv32, HighBytes(x)));
      { RawSplit(x); StepsHigh(LowByte(x) as bv32, HighBytes(x)); }
      Xor(Steps(8, LowByte(x) as bv32), Shift(8, HighBytes(x)));
      { ShiftEight(HighBytes(x)); }
      Xor(Steps(8, LowByte(x) as bv32), Down(HighBytes(x)));
      { RawSplit(x); }
      Xor(Steps(8, LowByte(x) as bv32), Down(x));
      { EntryIsEightSteps(LowByte(x)); }
      Xor(Entry(LowByte(x)), Down(x));
    }
  }

  lemma RawByteIn(crc: bv32, v: bv8)
    ensures Down(v as bv32) == 0
    ensures Down(Xor(crc, v as bv32)) == Down(crc)
    ensures Xor(crc, 0) == crc
  {
  }

  /** One iteration of the table loop is eight bits of the definition. */
  lemma TableStepIsEightBits(crc: bv32, val: bv8)
    ensures TableStep(crc, val) == Feed(crc, LowBits(8, val as bv32))
  {
    calc {
      TableStep(crc, val);
      Xor(Down(crc), Entry(LowByte(Xor(crc, val as bv32))));
      { RawByteIn(crc, val); }
      Xor(Entry(LowByte(Xor(crc, val as bv32))), Down(Xor(crc, val as bv32)));
      { StepsByEntry(Xor(crc, val as bv32)); }
      Steps(8, Xor(crc, val as bv32));
      { StepsPeel(8, crc, val as bv32); }
      Xor(Feed(crc, LowBits(8, val as bv32)), Shift(8, val as bv32));
      { ShiftEight(val as bv32); RawByteIn(crc, val); }
      Xor(Feed(crc, LowBits(8, val as bv32)), 0);
      { RawByteIn(Feed(crc, LowBits(8, val as bv32)), val); }
      Feed(crc, LowBits(8, val as bv32));
    }
  }

  lemma {:induction false} FeedConcat(crc: bv32, a: seq<bool>, b: seq<bool>)
    ensures Feed(crc, a + b) == Feed(Feed(crc, a), b)
    decreases |a|
  {
    if a == [] {
      assert a + b == b;
    } else {
      assert (a + b)[0] == a[0] && (a + b)[1..] == a[1..] + b;
      FeedConcat(FeedBit(crc, a[0]), a[1..], b);
    }
  }

  // ---------- the code ----------

  method HashCrc32c(str: seq<bv8>) returns (hash: bv32)
    requires Terminated(str)
    ensures hash == Crc(CString(str))
  {
    var crc: bv32 := 0xffff_ffff;
    var i := 0;
    while str[i] != 0
      invariant i <= Strlen(str)
      invariant Feed(0xffff_ffff, Bits(CString(str))) == Feed(crc, Bits(CString(str)[i..]))
      decreases Strlen(str) - i
    {
      ghost var rest := CString(str)[i..];
      assert rest[0] == str[i] && rest[1..] == CString(str)[i + 1..];
      TableStepIsEightBits(crc, str[i]);
      FeedConcat(crc, LowBits(8, str[i] as bv32), Bits(rest[1..]));
      crc := TableStep(crc, str[i]);
      i := i + 1;
    }
    assert CString(str)[i..] == [];
    hash := !crc;
  }

  // ---------- bursts ----------

  lemma FeedBitInjective(x: bv32, y: bv32, bit: bool)
    requires FeedBit(x, bit) == FeedBit(y, bit)
    ensures x == y
  {
    if bit { RawInj(x ^ 1, y ^ 1); assert x ^ 1 ^ 1 == y ^ 1 ^ 1; } else { RawInj(x, y); }
  }

  lemma {:induction false} FeedInjective(x: bv32, y: bv32, bits: seq<bool>)
    requires Feed(x, bits) == Feed(y, bits)
    ensures x == y
    decreases |bits|
  {
    if bits != [] {
      FeedInjective(FeedBit(x, bits[0]), FeedBit(y, bits[0]), bits[1..]);
      FeedBitInjective(x, y, bits[0]);
    }
  }

  /** The registers differ at most in the positions of m. */
  predicate Within(x: bv32, y: bv32, m: bv32) { (x ^ y) & !m == 0 }

  lemma RawBackHalf(x: bv32, y: bv32, m: bv32)
    requires (BitStep(x) ^ BitStep(y)) & !(m >> 1) == 0 && m & 1 == 1
    ensures (x ^ y) & !m == 0
  {
  }

  lemma BackStep(x: bv32, y: bv32, m: bv32)
    requires Within(BitStep(x), BitStep(y), Half(m)) && LowBit(m)
    ensures Within(x, y, m)
  {
    RawBackHalf(x, y, m);
  }

  function One(bit: bool): bv32 { if bit then 1 else 0 }

  lemma RawXorZero(x: bv32)
    ensures Xor(x, 0) == x
  {
  }

  lemma FeedFlips(crc: bv32, bit: bool)
    ensures FeedBit(crc, bit) == BitStep(Xor(crc, One(bit)))
  {
    if bit { assert Xor(crc, 1) == crc ^ 1; } else { RawXorZero(crc); }
  }

  lemma RawFlip(x: bv32, y: bv32, p: bv32, q: bv32, m: bv32)
    requires ((x ^ p) ^ (y ^ q)) & !m == 0 && m & 1 == 1 && p <= 1 && q <= 1
    ensures (x ^ y) & !m == 0
  {
  }

  lemma FlipBack(x: bv32, y: bv32, p: bv32, q: bv32, m: bv32)
    requires Within(Xor(x, p), Xor(y, q), m) && LowBit(m) && p <= 1 && q <= 1
    ensures Within(x, y, m)
  {
    RawFlip(x, y, p, q, m);
  }

  lemma OneIsBit(bit: bool)
    ensures One(bit) <= 1
  {
  }

  /** Two registers that agree outside Half(m) after one more bit each agreed outside m before it. */
  lemma BackBit(x: bv32, y: bv32, a: bool, b: bool, m: bv32)
    requires Within(FeedBit(x, a), FeedBit(y, b), Half(m)) && LowBit(m)
    ensures Within(x, y, m)
  {
    FeedFlips(x, a);
    FeedFlips(y, b);
    BackStep(Xor(x, One(a)), Xor(y, One(b)), m);
    OneIsBit(a);
    OneIsBit(b);
    FlipBack(x, y, One(a), One(b), m);
  }

  lemma RawSame(x: bv32, m: bv32)
    ensures Within(x, x, m)
  {
  }

  lemma {:induction false} Back(x: bv32, y: bv32, a: seq<bool>, b: seq<bool>, m: bv32)
    requires |a| == |b| && Feed(x, a) == Feed(y, b) && LowMask(|a|, m)
    ensures Within(x, y, m)
    decreases |a|
  {
    if a == [] {
      RawSame(x, m);
    } else {
      assert LowBit(m) && LowMask(|a[1..]|, Half(m));
      Back(FeedBit(x, a[0]), FeedBit(y, b[0]), a[1..], b[1..], Half(m));
      BackBit(x, y, a[0], b[0], m);
    }
  }

  lemma FullMask()
    ensures LowMask(32, 0xffff_ffff)
  {
    assert LowMask(8, 0xff);
    assert LowMask(16, 0xffff);
    assert LowMask(24, 0xff_ffff);
  }

  lemma RawHalfTop(m: bv32)
    ensures Half(m) & 0x8000_0000 == 0
  {
  }

  lemma {:induction false} MaskOf(k: nat) returns (m: bv32)
    requires k <= 32
    ensures LowMask(k, m) && (k < 32 ==> m & 0x8000_0000 == 0)
    decreases 32 - k
  {
    if k == 32 {
      FullMask();
      m := 0xffff_ffff;
    } else {
      var wider := MaskOf(k + 1);
      RawHalfTop(wider);
      m := Half(wider);
    }
  }

  lemma RawFirstDifference(c: bv32, m: bv32)
    requires m & 0x8000_0000 == 0
    ensures (BitStep(c ^ 1) ^ BitStep(c)) & !m != 0
    ensures (BitStep(c) ^ BitStep(c ^ 1)) & !m != 0
  {
  }

  /** Different windows of at most 32 bits leave different registers. */
  lemma {:induction false} WindowsDiffer(c: bv32, a: seq<bool>, b: seq<bool>)
    requires |a| == |b| <= 32 && a != b
    ensures Feed(c, a) != Feed(c, b)
    decreases |a|
  {
    if a[0] == b[0] {
      assert a == [a[0]] + a[1..] && b == [b[0]] + b[1..];
      WindowsDiffer(FeedBit(c, a[0]), a[1..], b[1..]);
    } else if Feed(c, a) == Feed(c, b) {
      var m := MaskOf(|a| - 1);
      Back(FeedBit(c, a[0]), FeedBit(c, b[0]), a[1..], b[1..], m);
      RawFirstDifference(c, m);
      assert false;
    }
  }

  lemma RawBit(u: bv32, v: bv32)
    requires LowBit(u) == LowBit(v) && Half(u) == Half(v)
    ensures u == v
  {
  }

  lemma {:induction false} LowBitsInjective(n: nat, u: bv32, v: bv32)
    requires LowBits(n, u) == LowBits(n, v) && Shift(n, u) == Shift(n, v)
    ensures u == v
  {
    if n > 0 {
      assert LowBits(n, u)[0] == LowBits(n, v)[0];
      assert LowBits(n, u)[1..] == LowBits(n, v)[1..];
      LowBitsInjective(n - 1, Half(u), Half(v));
      RawBit(u, v);
    }
  }

  lemma ByteBitsInjective(u: bv8, v: bv8)
    requires LowBits(8, u as bv32) == LowBits(8, v as bv32)
    ensures u == v
  {
    ShiftEight(u as bv32);
    ShiftEight(v as bv32);
    RawByteIn(0, u);
    RawByteIn(0, v);
    LowBitsInjective(8, u as bv32, v as bv32);
  }

  lemma {:induction false} BitsInjective(s: seq<bv8>, t: seq<bv8>)
    requires Bits(s) == Bits(t)
    ensures s == t
  {
    if s != [] && t != [] {
      assert Bits(s)[..8] == LowBits(8, s[0] as bv32) && Bits(s)[8..] == Bits(s[1..]);
      assert Bits(t)[..8] == LowBits(8, t[0] as bv32) && Bits(t)[8..] == Bits(t[1..]);
      ByteBitsInjective(s[0], t[0]);
      BitsInjective(s[1..], t[1..]);
    }
  }

  /** Messages of the same length that differ, but only within 32 consecutive bits. */
  lemma MessagesDiffer(c: bv32, x: seq<bool>, y: seq<bool>, i: nat)
    requires |x| == |y| && x != y && i <= |x|
    requires forall k :: 0 <= k < |x| && !(i <= k < i + 32) ==> x[k] == y[k]
    ensures Feed(c, x) != Feed(c, y)
  {
    var j := if i + 32 <= |x| then i + 32 else |x|;
    var p, a, b, q := x[..i], x[i..j], y[i..j], x[j..];
    assert x == p + (a + q);
    assert y == p + (b + q);
    WindowInMessage(c, p, a, b, q);
  }

  lemma WindowInMessage(c: bv32, p: seq<bool>, a: seq<bool>, b: seq<bool>, q: seq<bool>)
    requires |a| == |b| <= 32 && a != b
    ensures Feed(c, p + (a + q)) != Feed(c, p + (b + q))
  {
    var d := Feed(c, p);
    FeedConcat(c, p, a + q);
    FeedConcat(c, p, b + q);
    FeedConcat(d, a, q);
    FeedConcat(d, b, q);
    WindowsDiffer(d, a, b);
    if Feed(Feed(d, a), q) == Feed(Feed(d, b), q) {
      FeedInjective(Feed(d, a), Feed(d, b), q);
    }
  }

  lemma RawNot(x: bv32, y: bv32)
    requires !x == !y
    ensures x == y
  {
  }

  /** Any burst of at most 32 bits is detected: two strings of the same length whose bits agree
      outside some 32 consecutive positions have the same CRC only if they are the same. */
  lemma BurstDetected(s: seq<bv8>, t: seq<bv8>, i: nat)
    requires |s| == |t| && s != t && i <= 8 * |s|
    requires forall k :: 0 <= k < 8 * |s| && !(i <= k < i + 32) ==> Bits(s)[k] == Bits(t)[k]
    ensures Crc(s) != Crc(t)
  {
    if Bits(s) == Bits(t) { BitsInjective(s, t); }
    MessagesDiffer(0xffff_ffff, Bits(s), Bits(t), i);
    if Crc(s) == Crc(t) {
      RawNot(Feed(0xffff_ffff, Bits(s)), Feed(0xffff_ffff, Bits(t)));
    }
  }

  lemma {:induction false} BitOfByte(s: seq<bv8>, k: nat)
    requires k < 8 * |s|
    ensures Bits(s)[k] == LowBits(8, s[k / 8] as bv32)[k % 8]
  {
    hide LowBits;
    assert Bits(s) == LowBits(8, s[0] as bv32) + Bits(s[1..]);
    if k < 8 {
      assert k / 8 == 0 && k % 8 == k;
    } else {
      assert (k - 8) / 8 == k / 8 - 1 && (k - 8) % 8 == k % 8;
      assert s[1..][k / 8 - 1] == s[k / 8];
      BitOfByte(s[1..], k - 8);
    }
  }

  /** In particular, strings that differ only within four consecutive bytes never collide. */
  lemma FourByteBurstDetected(s: seq<bv8>, t: seq<bv8>, i: nat)
    requires |s| == |t| && s != t && i <= |s|
    requires forall k :: 0 <= k < |s| && !(i <= k < i + 4) ==> s[k] == t[k]
    ensures Crc(s) != Crc(t)
  {
    forall k | 0 <= k < 8 * |s| && !(8 * i <= k < 8 * i + 32) ensures Bits(s)[k] == Bits(t)[k] {
      BitOfByte(s, k);
      BitOfByte(t, k);
    }
    BurstDetected(s, t, 8 * i);
  }

  // ---------- known answers ----------

  lemma ByteFed(c: bv32, v: bv8, x: bv32, d: bv32)
    requires c ^ (v as bv32) == x && Steps(8, x) == d
    ensures Feed(c, LowBits(8, v as bv32)) == d
  {
    hide Feed, LowBits, Steps, Shift;
    StepsPeel(8, c, v as bv32);
    ByteShifted(v);
    RawXorNone(Feed(c, LowBits(8, v as bv32)));
  }

  lemma ByteShifted(v: bv8)
    ensures Shift(8, v as bv32) == 0
  {
    ShiftEight(v as bv32);
    RawByteDown(v);
  }

  lemma RawByteDown(v: bv8)
    ensures Down(v as bv32) == 0
  {
  }

  lemma RawXorNone(x: bv32)
    ensures Xor(x, 0) == x
  {
  }

  /** The register after the bytes of a string. */
  function Fed(c: bv32, s: seq<bv8>): bv32 { Feed(c, Bits(s)) }

  lemma FedOneMore(c: bv32, v: bv8, s: seq<bv8>, d: bv32)
    requires s != [] && s[0] == v
    requires Feed(c, LowBits(8, v as bv32)) == d
    ensures Fed(c, s) == Fed(d, s[1..])
  {
    hide LowBits;
    FeedConcat(c, LowBits(8, v as bv32), Bits(s[1..]));
  }

  lemma Known1()
    ensures Feed(0xffffffff, LowBits(8, 0x31)) == 0x6f0a661c
  {
    assert Steps(8, 0xffffffce) == 0x6f0a661c;
    ByteFed(0xffffffff, 0x31, 0xffffffce, 0x6f0a661c);
  }

  lemma Known2()
    ensures Feed(0x6f0a661c, LowBits(8, 0x32)) == 0x8caa3b9f
  {
    assert Steps(8, 0x6f0a662e) == 0x8caa3b9f;
    ByteFed(0x6f0a661c, 0x32, 0x6f0a662e, 0x8caa3b9f);
  }

  lemma Known3()
    ensures Feed(0x8caa3b9f, LowBits(8, 0x33)) == 0xef84d04d
  {
    assert Steps(8, 0x8caa3bac) == 0xef84d04d;
    ByteFed(0x8caa3b9f, 0x33, 0x8caa3bac, 0xef84d04d);
  }

  lemma Known4()
    ensures Feed(0xef84d04d, LowBits(8, 0x34)) == 0x09c50b11
  {
    assert Steps(8, 0xef84d079) == 0x09c50b11;
    ByteFed(0xef84d04d, 0x34, 0xef84d079, 0x09c50b11);
  }

  lemma Known5()
    ensures Feed(0x09c50b11, LowBits(8, 0x35)) == 0xe72edcca
  {
    assert Steps(8, 0x09c50b24) == 0xe72edcca;
    ByteFed(0x09c50b11, 0x35, 0x09c50b24, 0xe72edcca);
  }

  lemma Known6()
    ensures Feed(0xe72edcca, LowBits(8, 0x36)) == 0xbeca8e79
  {
    assert Steps(8, 0xe72edcfc) == 0xbeca8e79;
    ByteFed(0xe72edcca, 0x36, 0xe72edcfc, 0xbeca8e79);
  }

  lemma Known7()
    ensures Feed(0xbeca8e79, LowBits(8, 0x37)) == 0xedbd6815
  {
    assert Steps(8, 0xbeca8e4e) == 0xedbd6815;
    ByteFed(0xbeca8e79, 0x37, 0xbeca8e4e, 0xedbd6815);
  }

  lemma Known8()
    ensures Feed(0xedbd6815, LowBits(8, 0x38)) == 0x9f787f65
  {
    assert Steps(8, 0xedbd682d) == 0x9f787f65;
    ByteFed(0xedbd6815, 0x38, 0xedbd682d, 0x9f787f65);
  }

  lemma Known9()
    ensures Feed(0x9f787f65, LowBits(8, 0x39)) == 0x1cf96d7c
  {
    assert Steps(8, 0x9f787f5c) == 0x1cf96d7c;
    ByteFed(0x9f787f65, 0x39, 0x9f787f5c, 0x1cf96d7c);
  }

  const CHECK: seq<bv8> := [0x31, 0x32, 0x33, 0x34, 0x35, 0x36, 0x37, 0x38, 0x39]

  lemma CheckHead()
    ensures Fed(0xffffffff, CHECK[0..]) == Fed(0xe72edcca, CHECK[5..])
  {
    hide Fed, Feed, LowBits;
    Known1();
    FedOneMore(0xffffffff, 0x31, CHECK[0..], 0x6f0a661c);
    assert CHECK[0..][1..] == CHECK[1..];
    Known2();
    FedOneMore(0x6f0a661c, 0x32, CHECK[1..], 0x8caa3b9f);
    assert CHECK[1..][1..] == CHECK[2..];
    Known3();
    FedOneMore(0x8caa3b9f, 0x33, CHECK[2..], 0xef84d04d);
    assert CHECK[2..][1..] == CHECK[3..];
    Known4();
    FedOneMore(0xef84d04d, 0x34, CHECK[3..], 0x09c50b11);
    assert CHECK[3..][1..] == CHECK[4..];
    Known5();
    FedOneMore(0x09c50b11, 0x35, CHECK[4..], 0xe72edcca);
    assert CHECK[4..][1..] == CHECK[5..];
  }

  lemma CheckTail()
    ensures Fed(0xe72edcca, CHECK[5..]) == Fed(0x1cf96d7c, CHECK[9..])
  {
    hide Fed, Feed, LowBits;
    Known6();
    FedOneMore(0xe72edcca, 0x36, CHECK[5..], 0xbeca8e79);
    assert CHECK[5..][1..] == CHECK[6..];
    Known7();
    FedOneMore(0xbeca8e79, 0x37, CHECK[6..], 0xedbd6815);
    assert CHECK[6..][1..] == CHECK[7..];
    Known8();
    FedOneMore(0xedbd6815, 0x38, CHECK[7..], 0x9f787f65);
    assert CHECK[7..][1..] == CHECK[8..];
    Known9();
    FedOneMore(0x9f787f65, 0x39, CHECK[8..], 0x1cf96d7c);
    assert CHECK[8..][1..] == CHECK[9..];
  }

  lemma Flipped(c: bv32)
    requires c == 0x1cf96d7c
    ensures !c == 0xe306_9283
  {
  }

  /** The check value: the CRC of "123456789"; and the CRC of nothing is 0. */
  lemma KnownAnswer()
    ensures Crc(CHECK) == 0xe306_9283
    ensures Crc([]) == 0
  {
    hide Feed, Bits;
    CheckHead();
    CheckTail();
    assert CHECK[0..] == CHECK && CHECK[9..] == [];
    FedNothing(0x1cf96d7c);
    Flipped(Feed(0xffff_ffff, Bits(CHECK)));
    FedNothing(0xffff_ffff);
  }

  lemma FedNothing(c: bv32)
    ensures Feed(c, Bits([])) == c
  {
  }

  lemma {:induction false} StepsAdd(m: nat, n: nat, x: bv32)
    ensures Steps(m + n, x) == Steps(n, Steps(m, x))
  {
    if m > 0 { StepsAdd(m - 1, n, BitStep(x)); }
  }

  lemma {:induction false} ShiftAdds(m: nat, n: nat, x: bv32)
    ensures Shift(m + n, x) == Shift(n, Shift(m, x))
  {
    if m > 0 { ShiftAdds(m - 1, n, Half(x)); }
  }

  lemma RawAllDown(x: bv32)
    ensures Down(Down(Down(Down(x)))) == 0
  {
  }

  lemma ShiftedOut(x: bv32)
    ensures Shift(32, x) == 0
  {
    hide Shift, Down;
    ShiftAdds(8, 24, x);
    ShiftAdds(8, 16, Shift(8, x));
    ShiftAdds(8, 8, Shift(8, Shift(8, x)));
    ShiftEight(x);
    ShiftEight(Down(x));
    ShiftEight(Down(Down(x)));
    ShiftEight(Down(Down(Down(x))));
    RawAllDown(x);
  }

  lemma RawAllOnes(x: bv32)
    ensures Xor(x, !x) == 0xffff_ffff
  {
  }

  lemma ResidueFirst()
    ensures Steps(8, 0xffff_ffff) == 0xad82acae && Steps(8, 0xad82acae) == 0x0e9e882d
  {
  }

  lemma ResidueLast()
    ensures Steps(8, 0x0e9e882d) == 0x9f9b5c85 && Steps(8, 0x9f9b5c85) == 0xb798b438
  {
  }

  /** Whatever the message, when it is followed by its CRC, low bit first, the register ends in the same
      state: the receiver need not know where the message stops. */
  lemma ResidueIsConstant(s: seq<bv8>)
    ensures Feed(0xffff_ffff, Bits(s) + LowBits(32, Crc(s))) == 0xb798b438
  {
    hide Feed, LowBits, Bits, Steps, Shift;
    var r := Feed(0xffff_ffff, Bits(s));
    FeedConcat(0xffff_ffff, Bits(s), LowBits(32, !r));
    StepsPeel(32, r, !r);
    ShiftedOut(!r);
    RawXorNone(Feed(r, LowBits(32, !r)));
    RawAllOnes(r);
    StepsAdd(8, 24, 0xffff_ffff);
    StepsAdd(8, 16, 0xad82acae);
    StepsAdd(8, 8, 0x0e9e882d);
    ResidueFirst();
    ResidueLast();
  }
}
