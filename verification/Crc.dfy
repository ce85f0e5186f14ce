/**
 CRC-32 as zip.js computes it, through a table of 256 entries, against its definition:
 division of the message by the reflected polynomial, one bit at a time (RFC 1952
 section 8).
 */
module Crc {
  import opened Utf

  // --- the definition ---

  // The register takes one message bit: it is shifted, and reduced by the polynomial
  // when the bit that leaves differs from the message bit.
  function TakeBit(c: bv32, bit: bv32): bv32 {
    if (c ^ bit) & 1 == 1 then (c >> 1) ^ 0xEDB8_8320 else c >> 1
  }

  // n bits of b, least significant first.
  function TakeBits(c: bv32, b: bv32, n: nat): bv32
    decreases n
  {
    if n == 0 then c else TakeBits(TakeBit(c, b & 1), Half(b), n - 1)
  }

  function Divide(c: bv32, data: seq<Byte>): bv32
    decreases |data|
  {
    if data == [] then c else Divide(TakeBits(c, data[0] as bv32, 8), data[1..])
  }

  function Crc32(data: seq<Byte>): bv32 {
    Complement(Divide(0xFFFF_FFFF, data))
  }

  function Complement(c: bv32): bv32 {
    c ^ 0xFFFF_FFFF
  }

  // --- the table ---

  function Shift1(c: bv32): bv32 {
    if c & 1 != 0 then 0xEDB8_8320 ^ (c >> 1) else c >> 1
  }

  function Shift(c: bv32, k: nat): bv32
    decreases k
  {
    if k == 0 then c else Shift(Shift1(c), k - 1)
  }

  // Exclusive or as a name, so that it can be kept folded.
  function Xor(a: bv32, b: bv32): bv32 {
    a ^ b
  }

  // One byte through the table.
  function TableStep(c: bv32, b: bv32): bv32 {
    Xor(Shift(Xor(c, b) & 0xFF, 8), c >> 8)
  }

  // Shifting is linear over exclusive or.

  lemma XorShift(a: bv32, b: bv32)
    ensures (a ^ b) >> 1 == (a >> 1) ^ (b >> 1)
  {}

  lemma XorLowBit(a: bv32, b: bv32)
    ensures (a ^ b) & 1 == (a & 1) ^ (b & 1)
  {}

  lemma LowBit(a: bv32)
    ensures a & 1 == 0 || a & 1 == 1
  {}

  lemma XorLaws(p: bv32, a: bv32, b: bv32)
    ensures (p ^ a) ^ (p ^ b) == a ^ b
    ensures (p ^ a) ^ b == p ^ (a ^ b) && a ^ (p ^ b) == p ^ (a ^ b)
  {}

  lemma Shift1Linear(a: bv32, b: bv32)
    ensures Shift1(Xor(a, b)) == Xor(Shift1(a), Shift1(b))
  {
    XorShift(a, b);
    XorLowBit(a, b);
    LowBit(a);
    LowBit(b);
    XorLaws(0xEDB8_8320, a >> 1, b >> 1);
  }

  lemma {:induction false} ShiftLinear(a: bv32, b: bv32, k: nat)
    ensures Shift(Xor(a, b), k) == Xor(Shift(a, k), Shift(b, k))
    decreases k
  {
    hide Shift1, Xor;
    if k > 0 {
      Shift1Linear(a, b);
      ShiftLinear(Shift1(a), Shift1(b), k - 1);
    }
  }

  // --- eight bits at once ---

  function Half(b: bv32): bv32 {
    b >> 1
  }

  lemma BitCases(c: bv32, b: bv32)
    ensures (c ^ b) & 1 == 1 <==> (c ^ (b & 1)) & 1 == 1
    ensures (c ^ b) & 1 != 0 <==> (c ^ b) & 1 == 1
  {}

  // Feeding a bit of b is shifting the register with the rest of b still mixed in.
  lemma BitIsShift(c: bv32, b: bv32)
    ensures Shift1(Xor(c, b)) == Xor(TakeBit(c, b & 1), Half(b))
  {
    BitCases(c, b);
    XorShift(c, b);
    XorLaws(0xEDB8_8320, c >> 1, b >> 1);
    XorComm(c >> 1, 0xEDB8_8320);
  }

  lemma XorComm(a: bv32, b: bv32)
    ensures a ^ b == b ^ a
  {}

  function Halve(b: bv32, n: nat): bv32
    decreases n
  {
    if n == 0 then b else Halve(Half(b), n - 1)
  }

  lemma {:induction false} BitsAreShifts(c: bv32, b: bv32, n: nat)
    ensures Shift(Xor(c, b), n) == Xor(TakeBits(c, b, n), Halve(b, n))
    decreases n
  {
    hide Shift1, TakeBit, Xor;
    if n > 0 {
      BitIsShift(c, b);
      BitsAreShifts(TakeBit(c, b & 1), Half(b), n - 1);
    }
  }

  lemma EightHalvings(b: bv32)
    ensures Halve(b, 8) == b >> 8
  {
    hide Half;
    Halves(b);
    assert Halve(b, 8) == Halve(b >> 2, 6);
    assert Halve(b >> 2, 6) == Halve(b >> 4, 4);
    assert Halve(b >> 4, 4) == Halve(b >> 6, 2);
  }

  // A register with n low bits clear is only shifted by n steps.
  lemma EvenStep(y: bv32)
    requires y & 1 == 0
    ensures Shift1(y) == Half(y)
  {}

  lemma HighShift(y: bv32)
    requires y & 0xFF == 0
    ensures Shift(y, 8) == y >> 8
  {
    hide Shift1, Half;
    var y1, y2, y3, y4, y5, y6, y7 := y >> 1, y >> 2, y >> 3, y >> 4, y >> 5, y >> 6, y >> 7;
    Halves(y);
    EvenBits(y);
    EvenStep(y); EvenStep(y1); EvenStep(y2); EvenStep(y3);
    EvenStep(y4); EvenStep(y5); EvenStep(y6); EvenStep(y7);
    assert Shift(y, 8) == Shift(y2, 6);
    assert Shift(y2, 6) == Shift(y4, 4);
    assert Shift(y4, 4) == Shift(y6, 2);
  }

  lemma EvenBits(y: bv32)
    requires y & 0xFF == 0
    ensures y & 1 == 0 && (y >> 1) & 1 == 0 && (y >> 2) & 1 == 0 && (y >> 3) & 1 == 0
    ensures (y >> 4) & 1 == 0 && (y >> 5) & 1 == 0 && (y >> 6) & 1 == 0 && (y >> 7) & 1 == 0
  {}

  lemma Halves(y: bv32)
    ensures Half(y) == y >> 1 && Half(y >> 1) == y >> 2 && Half(y >> 2) == y >> 3 && Half(y >> 3) == y >> 4
    ensures Half(y >> 4) == y >> 5 && Half(y >> 5) == y >> 6 && Half(y >> 6) == y >> 7 && Half(y >> 7) == y >> 8
  {}

  lemma SplitLow(x: bv32)
    ensures x == Xor(x & 0xFF, x & 0xFFFF_FF00)
    ensures (x & 0xFFFF_FF00) & 0xFF == 0 && (x & 0xFFFF_FF00) >> 8 == x >> 8
  {}

  lemma ByteBits(c: bv32, b: bv32)
    requires b < 256
    ensures b >> 8 == 0 && Xor(c, b) >> 8 == c >> 8
  {}

  lemma XorZero(a: bv32)
    ensures Xor(a, 0) == a
  {}

  // One step through the table takes the eight bits of a byte.
  lemma TableStepTakesByte(c: bv32, b: bv32)
    requires b < 256
    ensures TableStep(c, b) == TakeBits(c, b, 8)
  {
    hide Shift, Halve, TakeBits, Xor;
    var x := Xor(c, b);
    BitsAreShifts(c, b, 8);
    EightHalvings(b);
    ByteBits(c, b);
    XorZero(TakeBits(c, b, 8));
    SplitLow(x);
    ShiftLinear(x & 0xFF, x & 0xFFFF_FF00, 8);
    HighShift(x & 0xFFFF_FF00);
  }

  // --- the code of zip.js ---

  ghost predicate IsTable(t: seq<bv32>) {
    |t| == 256 && forall n: bv32 :: n < 256 ==> t[n as int] == Shift(n, 8)
  }

  lemma ShiftStep(c: bv32, k: nat)
    ensures Shift(c, 0) == c && Shift(c, k + 1) == Shift(Shift1(c), k)
  {}

  // The inner loop of CRC_TABLE.
  method TableEntry(n: bv32) returns (c: bv32)
    ensures c == Shift(n, 8)
  {
    hide Shift;
    c := n;
    var k := 0;
    while k < 8
      invariant 0 <= k <= 8 && Shift(c, 8 - k) == Shift(n, 8)
    {
      ShiftStep(c, 7 - k);
      c := if c & 1 != 0 then 0xEDB8_8320 ^ (c >> 1) else c >> 1;
      k := k + 1;
    }
    ShiftStep(c, 0);
  }

  // CRC_TABLE: entry n is n shifted eight times.
  method BuildTable() returns (t: array<bv32>)
    ensures fresh(t) && IsTable(t[..])
  {
    hide Shift;
    t := new bv32[256];
    var n := 0;
    while n < 256
      invariant 0 <= n <= 256 && t.Length == 256
      invariant forall m :: 0 <= m < n ==> t[m] == Shift(m as bv32, 8)
    {
      var c := TableEntry(n as bv32);
      t[n] := c;
      n := n + 1;
    }
    forall i: bv32 | i < 256 ensures t[..][i as int] == Shift(i, 8) {
      IndexRoundTrip(i);
    }
  }

  lemma IndexRoundTrip(i: bv32)
    requires i < 256
    ensures 0 <= i as int < 256 && (i as int) as bv32 == i
  {}

  // crc32: one table look-up a byte computes what dividing bit by bit defines.
  method Checksum(table: array<bv32>, bytes: seq<Byte>) returns (crc: bv32)
    requires IsTable(table[..])
    ensures crc == Crc32(bytes)
  {
    hide Divide, TakeBits, Shift, Xor, IsTable;
    var c: bv32 := 0xFFFF_FFFF;
    var i := 0;
    assert bytes[0..] == bytes;
    while i < |bytes|
      invariant 0 <= i <= |bytes|
      invariant Divide(c, bytes[i..]) == Divide(0xFFFF_FFFF, bytes)
    {
      var b := bytes[i];
      var index := Xor(c, b as bv32) & 0xFF;
      DivideStep(c, b, bytes[i + 1..]);
      LookUp(table, c, b as bv32, index);
      assert bytes[i..] == [b] + bytes[i + 1..];
      c := Xor(table[index as int], c >> 8);
      i := i + 1;
    }
    assert bytes[|bytes|..] == [];
    DivideNothing(c);
    crc := c ^ 0xFFFF_FFFF;
  }

  lemma DivideStep(c: bv32, b: Byte, rest: seq<Byte>)
    ensures b as bv32 < 256
    ensures Divide(c, [b] + rest) == Divide(TakeBits(c, b as bv32, 8), rest)
    ensures Divide(c, [b] + rest) == Divide(TakeBits(c, Wide(b), 8), rest)
  {
    hide TakeBits;
    assert ([b] + rest)[1..] == rest;
  }

  lemma DivideNothing(c: bv32)
    ensures Divide(c, []) == c
  {}

  lemma LookUp(table: array<bv32>, c: bv32, b: bv32, index: bv32)
    requires IsTable(table[..]) && b < 256 && index == Xor(c, b) & 0xFF
    ensures 0 <= index as int < table.Length
    ensures Xor(table[index as int], c >> 8) == TakeBits(c, b, 8)
  {
    hide Shift, TakeBits, Xor;
    MaskBits(Xor(c, b));
    IndexRoundTrip(index);
    TableStepTakesByte(c, b);
    assert table[index as int] == table[..][index as int];
  }

  lemma MaskBits(x: bv32)
    ensures x & 0xFF < 256
  {}

  // --- two facts about the checksum that do not mention how it is computed ---

  function Wide(b: Byte): bv32 {
    b as bv32
  }

  // The checksum as its four bytes, the lowest first.
  function LittleEndian(c: bv32): seq<Byte> {
    [LowByte(c), LowByte(Down(c)), LowByte(Down(Down(c))), LowByte(Down(Down(Down(c))))]
  }

  function LowByte(c: bv32): Byte {
    (c & 0xFF) as Byte
  }

  function Down(c: bv32): bv32 {
    c >> 8
  }

  lemma {:induction false} DivideAppend(c: bv32, a: seq<Byte>, b: seq<Byte>)
    ensures Divide(c, a + b) == Divide(Divide(c, a), b)
    decreases |a|
  {
    hide TakeBits;
    if a == [] {
      assert a + b == b;
    } else {
      assert (a + b)[1..] == a[1..] + b;
      DivideAppend(TakeBits(c, a[0] as bv32, 8), a[1..], b);
    }
  }

  lemma {:induction false} BitsAppend(c: bv32, x: bv32, m: nat, n: nat)
    ensures TakeBits(c, x, m + n) == TakeBits(TakeBits(c, x, m), Halve(x, m), n)
    decreases m
  {
    hide TakeBit, Half;
    if m > 0 {
      BitsAppend(TakeBit(c, x & 1), Half(x), m - 1, n);
    }
  }

  lemma BitsStep(c: bv32, x: bv32, n: nat)
    requires n > 0
    ensures TakeBits(c, x, n) == TakeBits(TakeBit(c, x & 1), Half(x), n - 1)
  {
    hide TakeBit, Half;
  }

  function And(a: bv32, b: bv32): bv32 {
    a & b
  }

  function Grow(mask: bv32): bv32 {
    (mask << 1) | 1
  }

  function Mask(n: nat): bv32
    requires n <= 8
  {
    if n == 0 then 0 else Grow(Mask(n - 1))
  }

  // The low n bits of x.
  function Low(x: bv32, n: nat): bv32
    requires n <= 8
  {
    And(x, Mask(n))
  }

  lemma {:induction false} MaskIsSmall(n: nat)
    requires n <= 8
    ensures Mask(n) < 0x8000_0000 && Mask(8) == 0xFF
  {
    assert Mask(1) == 1 && Mask(2) == 3 && Mask(3) == 7 && Mask(4) == 15;
    assert Mask(5) == 31 && Mask(6) == 63 && Mask(7) == 127 && Mask(8) == 255;
    assert n in {0, 1, 2, 3, 4, 5, 6, 7, 8};
  }

  lemma MaskedHalf(x: bv32, mask: bv32)
    requires mask < 0x8000_0000
    ensures And(x, Grow(mask)) & 1 == x & 1
    ensures Half(And(x, Grow(mask))) == And(Half(x), mask)
  {}

  lemma LowStep(x: bv32, n: nat)
    requires 0 < n <= 8
    ensures Low(x, n) & 1 == x & 1 && Half(Low(x, n)) == Low(Half(x), n - 1)
  {
    hide Half, And, Grow;
    MaskIsSmall(n - 1);
    MaskedHalf(x, Mask(n - 1));
  }

  // n bits are taken from the low n bits.
  lemma {:induction false} LowBits(c: bv32, x: bv32, n: nat)
    requires n <= 8
    ensures TakeBits(c, Low(x, n), n) == TakeBits(c, x, n)
    decreases n
  {
    hide TakeBit, Half, TakeBits, Low;
    if n == 0 {
      NoBits(c, x);
      NoBits(c, Low(x, 0));
    } else {
      BitsStep(c, x, n);
      BitsStep(c, Low(x, n), n);
      LowStep(x, n);
      LowBits(TakeBit(c, x & 1), Half(x), n - 1);
    }
  }

  lemma NoBits(c: bv32, x: bv32)
    ensures TakeBits(c, x, 0) == c
  {}

  lemma ByteOf(x: bv32)
    ensures ((x & 0xFF) as Byte) as bv32 == x & 0xFF
  {}

  lemma TakeByte(c: bv32, x: bv32)
    ensures TakeBits(c, Wide(LowByte(x)), 8) == TakeBits(c, x, 8)
  {
    hide TakeBits;
    ByteOf(x);
    MaskIsSmall(8);
    LowBits(c, x, 8);
  }

  lemma EightBits(c: bv32, x: bv32, n: nat)
    ensures TakeBits(c, x, 8 + n) == TakeBits(TakeBits(c, x, 8), Down(x), n)
  {
    hide TakeBits, Halve;
    BitsAppend(c, x, 8, n);
    EightHalvings(x);
  }

  // Four bytes, the lowest first, are the thirty-two bits of their word.
  lemma DivideWord(c: bv32, x: bv32)
    ensures Divide(c, LittleEndian(x)) == TakeBits(c, x, 32)
  {
    hide TakeBits, Divide, LowByte, Down, Wide;
    var x1, x2, x3 := Down(x), Down(Down(x)), Down(Down(Down(x)));
    var c1 := TakeBits(c, x, 8);
    var c2 := TakeBits(c1, x1, 8);
    var c3 := TakeBits(c2, x2, 8);
    TakeByte(c, x);
    TakeByte(c1, x1);
    TakeByte(c2, x2);
    TakeByte(c3, x3);
    FourSteps(c, LowByte(x), LowByte(x1), LowByte(x2), LowByte(x3));
    EightBits(c, x, 24);
    EightBits(c1, x1, 16);
    EightBits(c2, x2, 8);
  }

  lemma FourSteps(c: bv32, b0: Byte, b1: Byte, b2: Byte, b3: Byte)
    ensures Divide(c, [b0, b1, b2, b3])
         == TakeBits(TakeBits(TakeBits(TakeBits(c, Wide(b0), 8), Wide(b1), 8), Wide(b2), 8), Wide(b3), 8)
  {
    hide TakeBits, Divide, Wide;
    var s := [b0, b1, b2, b3];
    assert s == [b0] + [b1, b2, b3] && [b1, b2, b3] == [b1] + [b2, b3] && [b2, b3] == [b2] + [b3] && [b3] == [b3] + [];
    DivideStep(c, b0, [b1, b2, b3]);
    var c1 := TakeBits(c, Wide(b0), 8);
    DivideStep(c1, b1, [b2, b3]);
    var c2 := TakeBits(c1, Wide(b1), 8);
    DivideStep(c2, b2, [b3]);
    var c3 := TakeBits(c2, Wide(b2), 8);
    DivideStep(c3, b3, []);
    DivideNothing(TakeBits(c3, Wide(b3), 8));
  }

  lemma EightDown(x: bv32, n: nat)
    ensures Halve(x, 8 + n) == Halve(Down(x), n)
  {
    hide Halve;
    HalveTwice(x, 8, n);
    EightHalvings(x);
  }

  lemma NothingLeft(x: bv32)
    ensures Halve(x, 32) == 0
  {
    hide Halve, Down;
    EightDown(x, 24);
    EightDown(Down(x), 16);
    EightDown(Down(Down(x)), 8);
    EightDown(Down(Down(Down(x))), 0);
    NoHalving(Down(Down(Down(Down(x)))));
    AllDown(x);
  }

  lemma NoHalving(x: bv32)
    ensures Halve(x, 0) == x
  {}

  lemma AllDown(x: bv32)
    ensures Down(Down(Down(Down(x)))) == 0
  {}

  lemma XorOnes(r: bv32)
    ensures Xor(r, Complement(r)) == 0xFFFF_FFFF
  {}

  lemma {:induction false} HalveTwice(x: bv32, m: nat, n: nat)
    ensures Halve(x, m + n) == Halve(Halve(x, m), n)
    decreases m
  {
    hide Half;
    if m > 0 {
      HalveTwice(Half(x), m - 1, n);
    }
  }

  lemma {:induction false} ShiftTwice(c: bv32, m: nat, n: nat)
    ensures Shift(c, m + n) == Shift(Shift(c, m), n)
    decreases m
  {
    hide Shift1;
    if m > 0 {
      ShiftTwice(Shift1(c), m - 1, n);
    }
  }

  lemma EightShifts(c: bv32, c1: bv32, c2: bv32, c3: bv32, c4: bv32, c5: bv32, c6: bv32, c7: bv32, c8: bv32)
    requires Shift1(c) == c1 && Shift1(c1) == c2 && Shift1(c2) == c3 && Shift1(c3) == c4
    requires Shift1(c4) == c5 && Shift1(c5) == c6 && Shift1(c6) == c7 && Shift1(c7) == c8
    ensures Shift(c, 8) == c8
  {
    hide Shift1;
    ShiftTwice(c, 4, 4);
    assert Shift(c, 4) == c4 && Shift(c4, 4) == c8;
  }

  // All ones, shifted thirty-two times.
  lemma OnesShifted()
    ensures Shift(0xFFFF_FFFF, 32) == 0xDEBB_20E3
  {
    hide Shift;
    EightShifts(0xFFFF_FFFF, 0x9247_7CDF, 0xA49B_3D4F, 0xBFF5_1D87, 0xB242_0DE3,
                0xB499_85D1, 0xB7F4_41C8, 0x5BFA_20E4, 0x2DFD_1072);
    EightShifts(0x2DFD_1072, 0x16FE_8839, 0xE6C7_C73C, 0x7363_E39E, 0x39B1_F1CF,
                0xF160_7BC7, 0x9508_BEC3, 0xA73C_DC41, 0xBE26_ED00);
    EightShifts(0xBE26_ED00, 0x5F13_7680, 0x2F89_BB40, 0x17C4_DDA0, 0x0BE2_6ED0,
                0x05F1_3768, 0x02F8_9BB4, 0x017C_4DDA, 0x00BE_26ED);
    EightShifts(0x00BE_26ED, 0xEDE7_9056, 0x76F3_C82B, 0xD6C1_6735, 0x86D8_30BA,
                0x436C_185D, 0xCC0E_8F0E, 0x6607_4787, 0xDEBB_20E3);
    ShiftTwice(0xFFFF_FFFF, 8, 24);
    ShiftTwice(0x2DFD_1072, 8, 16);
    ShiftTwice(0xBE26_ED00, 8, 8);
  }

  lemma Constants()
    ensures Complement(0xDEBB_20E3) == 0x2144_DF1C
  {}

  // A register fed its own complement ends like all ones.
  lemma FedComplement(r: bv32)
    ensures TakeBits(r, Complement(r), 32) == 0xDEBB_20E3
  {
    hide TakeBits, Shift, Halve, Xor, Complement;
    BitsAreShifts(r, Complement(r), 32);
    XorOnes(r);
    NothingLeft(Complement(r));
    OnesShifted();
    XorZero(TakeBits(r, Complement(r), 32));
  }

  // The checksum of any data followed by its own checksum is always the same.
  lemma Residue(data: seq<Byte>)
    ensures Crc32(data + LittleEndian(Crc32(data))) == 0x2144_DF1C
  {
    hide Divide, TakeBits, LittleEndian, Complement;
    var r := Divide(0xFFFF_FFFF, data);
    DivideAppend(0xFFFF_FFFF, data, LittleEndian(Complement(r)));
    DivideWord(r, Complement(r));
    FedComplement(r);
    Constants();
  }

  lemma EightTaken(c: bv32, b: bv32, c1: bv32, c2: bv32, c3: bv32, c4: bv32, c5: bv32, c6: bv32, c7: bv32, c8: bv32)
    requires TakeBit(c, b & 1) == c1 && TakeBit(c1, (b >> 1) & 1) == c2 && TakeBit(c2, (b >> 2) & 1) == c3
    requires TakeBit(c3, (b >> 3) & 1) == c4 && TakeBit(c4, (b >> 4) & 1) == c5 && TakeBit(c5, (b >> 5) & 1) == c6
    requires TakeBit(c6, (b >> 6) & 1) == c7 && TakeBit(c7, (b >> 7) & 1) == c8
    ensures TakeBits(c, b, 8) == c8
  {
    hide TakeBit, TakeBits, Half;
    Halves(b);
    BitsStep(c, b, 8);
    BitsStep(c1, b >> 1, 7);
    BitsStep(c2, b >> 2, 6);
    BitsStep(c3, b >> 3, 5);
    BitsStep(c4, b >> 4, 4);
    BitsStep(c5, b >> 5, 3);
    BitsStep(c6, b >> 6, 2);
    BitsStep(c7, b >> 7, 1);
    NoBits(c8, b >> 8);
  }

  lemma Digit1()
    ensures TakeBits(0xFFFF_FFFF, Wide(0x31), 8) == 0x7C23_1048
  {
    hide TakeBits;
    EightTaken(0xFFFF_FFFF, 0x31, 0x7FFF_FFFF, 0xD247_7CDF, 0x849B_3D4F, 0xAFF5_1D87,
               0x57FA_8EC3, 0x2BFD_4761, 0xF846_2090, 0x7C23_1048);
  }

  lemma Digit2()
    ensures TakeBits(0x7C23_1048, Wide(0x32), 8) == 0xB0AC_BB32
  {
    hide TakeBits;
    EightTaken(0x7C23_1048, 0x32, 0x3E11_8824, 0xF2B0_4732, 0x7958_2399, 0xD114_92EC,
               0x8532_CA56, 0xAF21_E60B, 0xBA28_7025, 0xB0AC_BB32);
  }

  lemma Digit3()
    ensures TakeBits(0xB0AC_BB32, Wide(0x33), 8) == 0x77B7_9C2D
  {
    hide TakeBits;
    EightTaken(0xB0AC_BB32, 0x33, 0xB5EE_DEB9, 0x5AF7_6F5C, 0x2D7B_B7AE, 0x16BD_DBD7,
               0x0B5E_EDEB, 0x05AF_76F5, 0xEF6F_385A, 0x77B7_9C2D);
  }

  lemma Digit4()
    ensures TakeBits(0x77B7_9C2D, Wide(0x34), 8) == 0x641C_1F5C
  {
    hide TakeBits;
    EightTaken(0x77B7_9C2D, 0x34, 0xD663_4D36, 0x6B31_A69B, 0x3598_D34D, 0xF774_EA86,
               0x9602_F663, 0x4B01_7B31, 0xC838_3EB8, 0x641C_1F5C);
  }

  lemma Digit5()
    ensures TakeBits(0x641C_1F5C, Wide(0x35), 8) == 0x340A_C5E3
  {
    hide TakeBits;
    EightTaken(0x641C_1F5C, 0x35, 0xDFB6_8C8E, 0x6FDB_4647, 0x37ED_A323, 0xF64E_52B1,
               0x7B27_2958, 0xD02B_178C, 0x6815_8BC6, 0x340A_C5E3);
  }

  lemma Digit6()
    ensures TakeBits(0x340A_C5E3, Wide(0x36), 8) == 0xF68D_2C9E
  {
    hide TakeBits;
    EightTaken(0x340A_C5E3, 0x36, 0xF7BD_E1D1, 0x7BDE_F0E8, 0xD057_FB54, 0x682B_FDAA,
               0xD9AD_7DF5, 0x6CD6_BEFA, 0x366B_5F7D, 0xF68D_2C9E);
  }

  lemma Digit7()
    ensures TakeBits(0xF68D_2C9E, Wide(0x37), 8) == 0xAFFC_9660
  {
    hide TakeBits;
    EightTaken(0xF68D_2C9E, 0x37, 0x96FE_156F, 0x4B7F_0AB7, 0x25BF_855B, 0xFF67_418D,
               0x7FB3_A0C6, 0xD261_5343, 0x8488_2A81, 0xAFFC_9660);
  }

  lemma Digit8()
    ensures TakeBits(0xAFFC_9660, Wide(0x38), 8) == 0x651F_2550
  {
    hide TakeBits;
    EightTaken(0xAFFC_9660, 0x38, 0x57FE_4B30, 0x2BFF_2598, 0x15FF_92CC, 0xE747_4A46,
               0x9E1B_2603, 0x4F0D_9301, 0xCA3E_4AA0, 0x651F_2550);
  }

  lemma Digit9()
    ensures TakeBits(0x651F_2550, Wide(0x39), 8) == 0x340B_C6D9
  {
    hide TakeBits;
    EightTaken(0x651F_2550, 0x39, 0xDF37_1188, 0x6F9B_88C4, 0x37CD_C462, 0xF65E_6111,
               0x7B2F_3088, 0xD02F_1B64, 0x6817_8DB2, 0x340B_C6D9);
  }

  // The check value: the checksum of the nine digits from 1 to 9.
  lemma CheckValue()
    ensures Crc32([0x31, 0x32, 0x33, 0x34, 0x35, 0x36, 0x37, 0x38, 0x39]) == 0xCBF4_3926
  {
    hide Divide, TakeBits, Wide;
    var all: seq<Byte> := [0x31, 0x32, 0x33, 0x34, 0x35, 0x36, 0x37, 0x38, 0x39];
    Digit1(); Digit2(); Digit3(); Digit4(); Digit5(); Digit6(); Digit7(); Digit8(); Digit9();
    DivideDigit(0xFFFF_FFFF, all, 0);
    DivideDigit(0x7C23_1048, all, 1);
    DivideDigit(0xB0AC_BB32, all, 2);
    DivideDigit(0x77B7_9C2D, all, 3);
    DivideDigit(0x641C_1F5C, all, 4);
    DivideDigit(0x340A_C5E3, all, 5);
    DivideDigit(0xF68D_2C9E, all, 6);
    DivideDigit(0xAFFC_9660, all, 7);
    DivideDigit(0x651F_2550, all, 8);
    DivideNothing(0x340B_C6D9);
    assert all[0..] == all && all[9..] == [];
  }

  lemma DivideDigit(c: bv32, s: seq<Byte>, i: nat)
    requires i < |s|
    ensures Divide(c, s[i..]) == Divide(TakeBits(c, Wide(s[i]), 8), s[i + 1..])
  {
    hide Divide, TakeBits, Wide;
    assert s[i..] == [s[i]] + s[i + 1..];
    DivideStep(c, s[i], s[i + 1..]);
  }
}
