/** Known answers of the deterministic generator. */
module RngVectors {
  import opened Bits
  import opened BitCounts
  import opened Bytes
  import opened DeterministicRng

  /** A 64-bit word by its halves. */
  predicate Word(v: nat, hi: u32, lo: u32) {
    v / 0x1_0000_0000 == hi && v % 0x1_0000_0000 == lo
  }

  // ---- exclusive or, byte by byte ----

  function OneIfNot(same: bool): nat { if same then 0 else 1 }

  /** x ^ y for bytes. */
  function XorByte(x: nat, y: nat): (z: nat)
    requires x < 256 && y < 256
    ensures z < 256
  {
    (x as bv8 ^ y as bv8) as nat
  }

  lemma XorByteBits(x: nat, y: nat)
    requires x < 256 && y < 256
    ensures XorByte(x, y) ==
      128 * OneIfNot(x / 128 % 2 == y / 128 % 2) + 64 * OneIfNot(x / 64 % 2 == y / 64 % 2)
      + 32 * OneIfNot(x / 32 % 2 == y / 32 % 2) + 16 * OneIfNot(x / 16 % 2 == y / 16 % 2)
      + 8 * OneIfNot(x / 8 % 2 == y / 8 % 2) + 4 * OneIfNot(x / 4 % 2 == y / 4 % 2)
      + 2 * OneIfNot(x / 2 % 2 == y / 2 % 2) + OneIfNot(x % 2 == y % 2)
  {
  }

  /** x ^ y for hexadecimal digits, bit by bit. */
  function XorDigit(x: nat, y: nat): nat {
    8 * OneIfNot(x / 8 % 2 == y / 8 % 2) + 4 * OneIfNot(x / 4 % 2 == y / 4 % 2)
    + 2 * OneIfNot(x / 2 % 2 == y / 2 % 2) + OneIfNot(x % 2 == y % 2)
  }

  lemma XorOneBit(a: nat, b: nat)
    ensures Xor(a, b) == 2 * Xor(a / 2, b / 2) + OneIfNot(a % 2 == b % 2)
  {
    XorHalves(a, b);
  }

  lemma LastDigit(a: nat, q: nat, r: nat)
    requires a == 16 * q + r && r < 16
    ensures a / 2 / 2 / 2 / 2 == q
    ensures a % 2 == r % 2 && a / 2 % 2 == r / 2 % 2 && a / 2 / 2 % 2 == r / 4 % 2 && a / 2 / 2 / 2 % 2 == r / 8 % 2
  {
    assert a / 2 == 8 * q + r / 2;
    assert a / 2 / 2 == 4 * q + r / 4;
    assert a / 2 / 2 / 2 == 2 * q + r / 8;
  }

  lemma XorFourBits(a: nat, b: nat, q: nat, p: nat, x: nat, y: nat)
    requires a == 16 * q + x && b == 16 * p + y && x < 16 && y < 16
    ensures Xor(a, b) == 16 * Xor(q, p) + XorDigit(x, y)
  {
    XorOneBit(a, b);
    XorOneBit(a / 2, b / 2);
    XorOneBit(a / 2 / 2, b / 2 / 2);
    XorOneBit(a / 2 / 2 / 2, b / 2 / 2 / 2);
    LastDigit(a, q, x);
    LastDigit(b, p, y);
  }

  lemma DigitsOfByte(x: nat)
    requires x < 256
    ensures x % 16 % 2 == x % 2 && x % 16 / 2 % 2 == x / 2 % 2 && x % 16 / 4 % 2 == x / 4 % 2
    ensures x % 16 / 8 % 2 == x / 8 % 2 && x / 16 / 2 == x / 32 && x / 16 / 4 == x / 64 && x / 16 / 8 == x / 128
  {
    var q, r := x / 16, x % 16;
    assert x / 2 == 8 * q + r / 2 && x / 4 == 4 * q + r / 4 && x / 8 == 2 * q + r / 8;
  }

  lemma XorByteDigits(x: nat, y: nat)
    requires x < 256 && y < 256
    ensures XorByte(x, y) == 16 * XorDigit(x / 16, y / 16) + XorDigit(x % 16, y % 16)
  {
    XorByteBits(x, y);
    DigitsOfByte(x);
    DigitsOfByte(y);
  }

  lemma XorTwoDigits(v: nat, u: nat, a: nat, b: nat, x1: nat, x0: nat, y1: nat, y0: nat)
    requires v == 256 * a + 16 * x1 + x0 && u == 256 * b + 16 * y1 + y0 && x1 < 16 && x0 < 16 && y1 < 16 && y0 < 16
    ensures Xor(v, u) == 256 * Xor(a, b) + 16 * XorDigit(x1, y1) + XorDigit(x0, y0)
  {
    var w, z, d1, d0 := 16 * a + x1, 16 * b + y1, XorDigit(x1, y1), XorDigit(x0, y0);
    XorFourBits(v, u, w, z, x0, y0);
    XorFourBits(w, z, a, b, x1, y1);
    Chain(Xor(v, u), Xor(w, z), Xor(a, b), d1, d0);
  }

  lemma Chain(p: int, q: int, r: int, d1: int, d0: int)
    requires p == 16 * q + d0 && q == 16 * r + d1
    ensures p == 256 * r + 16 * d1 + d0
  {
  }

  lemma XorLow(v: nat, u: nat, a: nat, b: nat, x: nat, y: nat)
    requires v == 256 * a + x && u == 256 * b + y && x < 256 && y < 256
    ensures Xor(v, u) == 256 * Xor(a, b) + XorByte(x, y)
  {
    XorByteDigits(x, y);
    XorTwoDigits(v, u, a, b, x / 16, x % 16, y / 16, y % 16);
  }

  /** v by its bytes, the most significant one first. */
  predicate Octets(v: nat, b7: byte, b6: byte, b5: byte, b4: byte, b3: byte, b2: byte, b1: byte, b0: byte) {
    v == 0x1_0000_0000 * (0x100_0000 * b7 + 0x1_0000 * b6 + 0x100 * b5 + b4)
         + (0x100_0000 * b3 + 0x1_0000 * b2 + 0x100 * b1 + b0)
  }

  lemma XorOctets(v: nat, a7: byte, a6: byte, a5: byte, a4: byte, a3: byte, a2: byte, a1: byte, a0: byte,
                  u: nat, b7: byte, b6: byte, b5: byte, b4: byte, b3: byte, b2: byte, b1: byte, b0: byte)
    requires Octets(v, a7, a6, a5, a4, a3, a2, a1, a0) && Octets(u, b7, b6, b5, b4, b3, b2, b1, b0)
    ensures Octets(Xor(v, u), XorByte(a7, b7), XorByte(a6, b6), XorByte(a5, b5), XorByte(a4, b4),
                   XorByte(a3, b3), XorByte(a2, b2), XorByte(a1, b1), XorByte(a0, b0))
  {
    var v2, u2 := 256 * a7 + a6, 256 * b7 + b6;
    var v3, u3 := 256 * v2 + a5, 256 * u2 + b5;
    var v4, u4 := 256 * v3 + a4, 256 * u3 + b4;
    var v5, u5 := 256 * v4 + a3, 256 * u4 + b3;
    var v6, u6 := 256 * v5 + a2, 256 * u5 + b2;
    var v7, u7 := 256 * v6 + a1, 256 * u6 + b1;
    XorLow(v, u, v7, u7, a0, b0);
    XorLow(v7, u7, v6, u6, a1, b1);
    XorLow(v6, u6, v5, u5, a2, b2);
    XorLow(v5, u5, v4, u4, a3, b3);
    XorLow(v4, u4, v3, u3, a4, b4);
    XorLow(v3, u3, v2, u2, a5, b5);
    XorLow(v2, u2, a7, b7, a6, b6);
    XorLow(a7, b7, 0, 0, a7, b7);
    XorZero(0);
  }

  lemma ShiftsAre(v: nat)
    ensures Shr(v, 27) == v / 0x800_0000 && Shr(v, 30) == v / 0x4000_0000 && Shr(v, 31) == v / 0x8000_0000
  {
    ShrIs(v, 27);
    ShrIs(v, 30);
    ShrIs(v, 31);
    assert Pow2(4) == 16;
    assert Pow2(8) == 0x100;
    assert Pow2(12) == 0x1000;
    assert Pow2(16) == 0x1_0000;
    assert Pow2(20) == 0x10_0000;
    assert Pow2(24) == 0x100_0000;
    assert Pow2(27) == 0x800_0000;
  }

  // ---- the first word from state 0 ----

  lemma FirstFold30Bytes()
    ensures XorByte(0x9E, 0x00) == 0x9E && XorByte(0x37, 0x00) == 0x37 && XorByte(0x79, 0x00) == 0x79
    ensures XorByte(0xB9, 0x02) == 0xBB && XorByte(0x7F, 0x78) == 0x07 && XorByte(0x4A, 0xDD) == 0x97
    ensures XorByte(0x7C, 0xE6) == 0x9A && XorByte(0x15, 0xE5) == 0xF0
  {
  }

  lemma FirstFold30Octets(v: nat, u: nat)
    requires Octets(v, 0x9E, 0x37, 0x79, 0xB9, 0x7F, 0x4A, 0x7C, 0x15)
    requires Octets(u, 0x00, 0x00, 0x00, 0x02, 0x78, 0xDD, 0xE6, 0xE5)
    ensures Octets(Xor(v, u), 0x9E, 0x37, 0x79, 0xBB, 0x07, 0x97, 0x9A, 0xF0)
  {
    FirstFold30Bytes();
    XorOctets(v, 0x9E, 0x37, 0x79, 0xB9, 0x7F, 0x4A, 0x7C, 0x15,
              u, 0x00, 0x00, 0x00, 0x02, 0x78, 0xDD, 0xE6, 0xE5);
  }

  lemma FirstFold30(v: nat)
    requires Word(v, 0x9E3779B9, 0x7F4A7C15)
    ensures Word(Fold(v, 30), 0x9E3779BB, 0x07979AF0)
  {
    ShiftsAre(v);
    FirstFold30Octets(v, Shr(v, 30));
  }

  lemma FirstTimes1(v: nat)
    requires Word(v, 0x9E3779BB, 0x07979AF0)
    ensures Word(v * MULTIPLIER1 % U64_LIMIT, 0x6F68261B, 0x57E7A770)
  {
    assert v == 0x9E3779BB * 0x1_0000_0000 + 0x07979AF0;
  }

  lemma FirstFold27Bytes()
    ensures XorByte(0x6F, 0x00) == 0x6F && XorByte(0x68, 0x00) == 0x68 && XorByte(0x26, 0x00) == 0x26
    ensures XorByte(0x1B, 0x0D) == 0x16 && XorByte(0x57, 0xED) == 0xBA && XorByte(0xE7, 0x04) == 0xE3
    ensures XorByte(0xA7, 0xC3) == 0x64 && XorByte(0x70, 0x6A) == 0x1A
  {
  }

  lemma FirstFold27Octets(v: nat, u: nat)
    requires Octets(v, 0x6F, 0x68, 0x26, 0x1B, 0x57, 0xE7, 0xA7, 0x70)
    requires Octets(u, 0x00, 0x00, 0x00, 0x0D, 0xED, 0x04, 0xC3, 0x6A)
    ensures Octets(Xor(v, u), 0x6F, 0x68, 0x26, 0x16, 0xBA, 0xE3, 0x64, 0x1A)
  {
    FirstFold27Bytes();
    XorOctets(v, 0x6F, 0x68, 0x26, 0x1B, 0x57, 0xE7, 0xA7, 0x70,
              u, 0x00, 0x00, 0x00, 0x0D, 0xED, 0x04, 0xC3, 0x6A);
  }

  lemma FirstFold27(v: nat)
    requires Word(v, 0x6F68261B, 0x57E7A770)
    ensures Word(Fold(v, 27), 0x6F682616, 0xBAE3641A)
  {
    ShiftsAre(v);
    FirstFold27Octets(v, Shr(v, 27));
  }

  lemma FirstTimes2(v: nat)
    requires Word(v, 0x6F682616, 0xBAE3641A)
    ensures Word(v * MULTIPLIER2 % U64_LIMIT, 0xE220A838, 0xBF5C9DDE)
  {
    assert v == 0x6F682616 * 0x1_0000_0000 + 0xBAE3641A;
  }

  lemma FirstFold31Bytes()
    ensures XorByte(0xE2, 0x00) == 0xE2 && XorByte(0x20, 0x00) == 0x20 && XorByte(0xA8, 0x00) == 0xA8
    ensures XorByte(0x38, 0x01) == 0x39 && XorByte(0xBF, 0xC4) == 0x7B && XorByte(0x5C, 0x41) == 0x1D
    ensures XorByte(0x9D, 0x50) == 0xCD && XorByte(0xDE, 0x71) == 0xAF
  {
  }

  lemma FirstFold31Octets(v: nat, u: nat)
    requires Octets(v, 0xE2, 0x20, 0xA8, 0x38, 0xBF, 0x5C, 0x9D, 0xDE)
    requires Octets(u, 0x00, 0x00, 0x00, 0x01, 0xC4, 0x41, 0x50, 0x71)
    ensures Octets(Xor(v, u), 0xE2, 0x20, 0xA8, 0x39, 0x7B, 0x1D, 0xCD, 0xAF)
  {
    FirstFold31Bytes();
    XorOctets(v, 0xE2, 0x20, 0xA8, 0x38, 0xBF, 0x5C, 0x9D, 0xDE,
              u, 0x00, 0x00, 0x00, 0x01, 0xC4, 0x41, 0x50, 0x71);
  }

  lemma FirstFold31(v: nat)
    requires Word(v, 0xE220A838, 0xBF5C9DDE)
    ensures Word(Fold(v, 31), 0xE220A839, 0x7B1DCDAF)
  {
    ShiftsAre(v);
    FirstFold31Octets(v, Shr(v, 31));
  }

  lemma FirstOutput(s: u64)
    requires Word(s, 0x9E3779B9, 0x7F4A7C15)
    ensures Word(Output(s), 0xE220A839, 0x7B1DCDAF)
  {
    FirstFold30(s);
    FirstTimes1(Fold(s, 30));
    var a := Round(s, 30, MULTIPLIER1);
    FirstFold27(a);
    FirstTimes2(Fold(a, 27));
    FirstFold31(Round(a, 27, MULTIPLIER2));
  }

  // ---- the second ----

  lemma SecondFold30Bytes()
    ensures XorByte(0x3C, 0x00) == 0x3C && XorByte(0x6E, 0x00) == 0x6E && XorByte(0xF3, 0x00) == 0xF3
    ensures XorByte(0x72, 0x00) == 0x72 && XorByte(0xFE, 0xF1) == 0x0F && XorByte(0x94, 0xBB) == 0x2F
    ensures XorByte(0xF8, 0xCD) == 0x35 && XorByte(0x2A, 0xCB) == 0xE1
  {
  }

  lemma SecondFold30Octets(v: nat, u: nat)
    requires Octets(v, 0x3C, 0x6E, 0xF3, 0x72, 0xFE, 0x94, 0xF8, 0x2A)
    requires Octets(u, 0x00, 0x00, 0x00, 0x00, 0xF1, 0xBB, 0xCD, 0xCB)
    ensures Octets(Xor(v, u), 0x3C, 0x6E, 0xF3, 0x72, 0x0F, 0x2F, 0x35, 0xE1)
  {
    SecondFold30Bytes();
    XorOctets(v, 0x3C, 0x6E, 0xF3, 0x72, 0xFE, 0x94, 0xF8, 0x2A,
              u, 0x00, 0x00, 0x00, 0x00, 0xF1, 0xBB, 0xCD, 0xCB);
  }

  lemma SecondFold30(v: nat)
    requires Word(v, 0x3C6EF372, 0xFE94F82A)
    ensures Word(Fold(v, 30), 0x3C6EF372, 0x0F2F35E1)
  {
    ShiftsAre(v);
    SecondFold30Octets(v, Shr(v, 30));
  }

  lemma SecondTimes1(v: nat)
    requires Word(v, 0x3C6EF372, 0x0F2F35E1)
    ensures Word(v * MULTIPLIER1 % U64_LIMIT, 0x2A94FCBF, 0xCCB43499)
  {
    assert v == 0x3C6EF372 * 0x1_0000_0000 + 0x0F2F35E1;
  }

  lemma SecondFold27Bytes()
    ensures XorByte(0x2A, 0x00) == 0x2A && XorByte(0x94, 0x00) == 0x94 && XorByte(0xFC, 0x00) == 0xFC
    ensures XorByte(0xBF, 0x05) == 0xBA && XorByte(0xCC, 0x52) == 0x9E && XorByte(0xB4, 0x9F) == 0x2B
    ensures XorByte(0x34, 0x97) == 0xA3 && XorByte(0x99, 0xF9) == 0x60
  {
  }

  lemma SecondFold27Octets(v: nat, u: nat)
    requires Octets(v, 0x2A, 0x94, 0xFC, 0xBF, 0xCC, 0xB4, 0x34, 0x99)
    requires Octets(u, 0x00, 0x00, 0x00, 0x05, 0x52, 0x9F, 0x97, 0xF9)
    ensures Octets(Xor(v, u), 0x2A, 0x94, 0xFC, 0xBA, 0x9E, 0x2B, 0xA3, 0x60)
  {
    SecondFold27Bytes();
    XorOctets(v, 0x2A, 0x94, 0xFC, 0xBF, 0xCC, 0xB4, 0x34, 0x99,
              u, 0x00, 0x00, 0x00, 0x05, 0x52, 0x9F, 0x97, 0xF9);
  }

  lemma SecondFold27(v: nat)
    requires Word(v, 0x2A94FCBF, 0xCCB43499)
    ensures Word(Fold(v, 27), 0x2A94FCBA, 0x9E2BA360)
  {
    ShiftsAre(v);
    SecondFold27Octets(v, Shr(v, 27));
  }

  lemma SecondTimes2(v: nat)
    requires Word(v, 0x2A94FCBA, 0x9E2BA360)
    ensures Word(v * MULTIPLIER2 % U64_LIMIT, 0x6E789E6A, 0x7D485920)
  {
    assert v == 0x2A94FCBA * 0x1_0000_0000 + 0x9E2BA360;
  }

  lemma SecondFold31Bytes()
    ensures XorByte(0x6E, 0x00) == 0x6E && XorByte(0x78, 0x00) == 0x78 && XorByte(0x9E, 0x00) == 0x9E
    ensures XorByte(0x6A, 0x00) == 0x6A && XorByte(0x7D, 0xDC) == 0xA1 && XorByte(0x48, 0xF1) == 0xB9
    ensures XorByte(0x59, 0x3C) == 0x65 && XorByte(0x20, 0xD4) == 0xF4
  {
  }

  lemma SecondFold31Octets(v: nat, u: nat)
    requires Octets(v, 0x6E, 0x78, 0x9E, 0x6A, 0x7D, 0x48, 0x59, 0x20)
    requires Octets(u, 0x00, 0x00, 0x00, 0x00, 0xDC, 0xF1, 0x3C, 0xD4)
    ensures Octets(Xor(v, u), 0x6E, 0x78, 0x9E, 0x6A, 0xA1, 0xB9, 0x65, 0xF4)
  {
    SecondFold31Bytes();
    XorOctets(v, 0x6E, 0x78, 0x9E, 0x6A, 0x7D, 0x48, 0x59, 0x20,
              u, 0x00, 0x00, 0x00, 0x00, 0xDC, 0xF1, 0x3C, 0xD4);
  }

  lemma SecondFold31(v: nat)
    requires Word(v, 0x6E789E6A, 0x7D485920)
    ensures Word(Fold(v, 31), 0x6E789E6A, 0xA1B965F4)
  {
    ShiftsAre(v);
    SecondFold31Octets(v, Shr(v, 31));
  }

  lemma SecondOutput(s: u64)
    requires Word(s, 0x3C6EF372, 0xFE94F82A)
    ensures Word(Output(s), 0x6E789E6A, 0xA1B965F4)
  {
    SecondFold30(s);
    SecondTimes1(Fold(s, 30));
    var a := Round(s, 30, MULTIPLIER1);
    SecondFold27(a);
    SecondTimes2(Fold(a, 27));
    SecondFold31(Round(a, 27, MULTIPLIER2));
  }

  // ---- known answers ----

  lemma States(s: u64)
    requires s == 0
    ensures Word(StateAfter(s, 1), 0x9E3779B9, 0x7F4A7C15) && Word(StateAfter(s, 2), 0x3C6EF372, 0xFE94F82A)
  {
    var s1 := Advance(s);
    var s2 := Advance(s1);
    assert StateAfter(s, 0) == s && StateAfter(s, 1) == s1 && StateAfter(s, 2) == s2;
  }

  /** The first two words from state 0. */
  lemma KnownAnswers(s: u64)
    requires s == 0
    ensures Nth(s, 1) == 0xE220A8397B1DCDAF && Nth(s, 2) == 0x6E789E6AA1B965F4
  {
    States(s);
    FirstOutput(StateAfter(s, 1));
    SecondOutput(StateAfter(s, 2));
  }

  lemma FourBytes(v: nat, h: nat, b3: byte, b2: byte, b1: byte, b0: byte)
    requires v == 0x1_0000_0000 * h + 0x100_0000 * b3 + 0x1_0000 * b2 + 0x100 * b1 + b0
    ensures Le(4, v) == [b0, b1, b2, b3] && v / 4294967296 == h
  {
    assert v / 256 == 0x100_0000 * h + 0x1_0000 * b3 + 0x100 * b2 + b1;
    assert v / 65536 == 0x1_0000 * h + 0x100 * b3 + b2;
    assert v / 16777216 == 0x100 * h + b3;
    LeBytes(v);
  }

  lemma BytesOf(v: nat, b7: byte, b6: byte, b5: byte, b4: byte, b3: byte, b2: byte, b1: byte, b0: byte)
    requires Octets(v, b7, b6, b5, b4, b3, b2, b1, b0)
    ensures Le(8, v) == [b0, b1, b2, b3, b4, b5, b6, b7]
  {
    var hi := 0x100_0000 * b7 + 0x1_0000 * b6 + 0x100 * b5 + b4;
    FourBytes(v, hi, b3, b2, b1, b0);
    FourBytes(hi, 0, b7, b6, b5, b4);
    LeHalves(v);
  }

  /** The bytes that fill writes first from state 0. */
  lemma KnownBytes(s: u64)
    requires s == 0
    ensures Stream(s, 1) == [0xAF, 0xCD, 0x1D, 0x7B, 0x39, 0xA8, 0x20, 0xE2]
  {
    States(s);
    FirstOutput(StateAfter(s, 1));
    BytesOf(Nth(s, 1), 0xE2, 0x20, 0xA8, 0x39, 0x7B, 0x1D, 0xCD, 0xAF);
    assert Stream(s, 0) == [];
  }
}
