/** Bits of bytes: population counts, exclusive or, and the bit strings that the
    analysis scripts unpack. */
module Bits {
  import opened Bytes

  function BitCount(v: nat): nat {
    if v == 0 then 0 else v % 2 + BitCount(v / 2)
  }

  /** x ^ y, bit by bit. */
  function Xor(x: nat, y: nat): nat
    decreases x + y
  {
    if x == 0 && y == 0 then 0 else (if x % 2 == y % 2 then 0 else 1) + 2 * Xor(x / 2, y / 2)
  }

  lemma {:induction false} XorZeroIff(x: nat, y: nat)
    ensures BitCount(Xor(x, y)) == 0 <==> x == y
    decreases x + y
  {
    if !(x == 0 && y == 0) {
      XorZeroIff(x / 2, y / 2);
      var r := Xor(x / 2, y / 2);
      assert Xor(x, y) / 2 == r && Xor(x, y) % 2 == (if x % 2 == y % 2 then 0 else 1);
      assert x == 2 * (x / 2) + x % 2 && y == 2 * (y / 2) + y % 2;
      if Xor(x, y) == 0 {
        assert r == 0;
      }
    }
  }

  type bit = b: int | 0 <= b <= 1

  /** The k low bits of v, most significant first. */
  function LowBits(v: nat, k: nat): (r: seq<bit>)
    ensures |r| == k
  {
    if k == 0 then [] else LowBits(v / 2, k - 1) + [v % 2]
  }

  /** Positions at which two bit strings differ, of the first k. */
  function Mismatch(r: seq<bit>, q: seq<bit>, k: nat): nat
    requires k <= |r| && k <= |q|
  {
    if k == 0 then 0 else Mismatch(r, q, k - 1) + (if r[k - 1] == q[k - 1] then 0 else 1)
  }

  lemma {:induction false} MismatchPrefix(r: seq<bit>, q: seq<bit>, r': seq<bit>, q': seq<bit>, k: nat)
    requires k <= |r| && k <= |q|
    ensures Mismatch(r + r', q + q', k) == Mismatch(r, q, k)
  {
    if k > 0 {
      MismatchPrefix(r, q, r', q', k - 1);
    }
  }

  function Pow2(k: nat): (p: nat)
    ensures p >= 1
  {
    if k == 0 then 1 else 2 * Pow2(k - 1)
  }

  /** (x ^ y).bit_count() counts the positions at which the bits differ. */
  lemma {:induction false} XorCountsMismatches(x: nat, y: nat, k: nat)
    requires x < Pow2(k) && y < Pow2(k)
    ensures BitCount(Xor(x, y)) == Mismatch(LowBits(x, k), LowBits(y, k), k)
  {
    if k > 0 {
      XorCountsMismatches(x / 2, y / 2, k - 1);
      var r, q := LowBits(x / 2, k - 1), LowBits(y / 2, k - 1);
      MismatchPrefix(r, q, [x % 2], [y % 2], k - 1);
      var z := Xor(x / 2, y / 2);
      assert Xor(x, y) == (if x % 2 == y % 2 then 0 else 1) + 2 * z;
      assert Xor(x, y) / 2 == z && Xor(x, y) % 2 == (if x % 2 == y % 2 then 0 else 1);
    }
  }

  /** bits_of: each byte's eight bits, most significant first. */
  function BitsOf(s: seq<byte>): (r: seq<bit>)
    ensures |r| == 8 * |s|
  {
    if s == [] then [] else BitsOf(s[..|s| - 1]) + LowBits(s[|s| - 1], 8)
  }

  /** v >> k */
  function Shr(v: nat, k: nat): nat {
    if k == 0 then v else Shr(v / 2, k - 1)
  }

  /** Bit i of the k low bits, most significant first, is a shift and a mask. */
  lemma {:induction false} LowBitsAreShifts(v: nat, k: nat, i: nat)
    requires i < k
    ensures LowBits(v, k)[i] == Shr(v, k - 1 - i) % 2
  {
    if i < k - 1 {
      LowBitsAreShifts(v / 2, k - 1, i);
    }
  }

  lemma ByteBelow(b: byte)
    ensures b < Pow2(8)
  {
    assert Pow2(4) == 16;
  }

  // ---- shifts and exclusive or as an algebra ----

  lemma XorHalves(x: nat, y: nat)
    ensures Xor(x, y) / 2 == Xor(x / 2, y / 2)
    ensures Xor(x, y) % 2 == (if x % 2 == y % 2 then 0 else 1)
  {
    var z := Xor(x / 2, y / 2);
    if x == 0 && y == 0 {
      assert Xor(0, 0) == 0;
    } else {
      assert Xor(x, y) == (if x % 2 == y % 2 then 0 else 1) + 2 * z;
    }
  }

  lemma Halves(x: nat, y: nat)
    requires x / 2 == y / 2 && x % 2 == y % 2
    ensures x == y
  {
  }

  lemma {:induction false} XorCancels(x: nat, y: nat)
    ensures Xor(Xor(x, y), y) == x
    decreases x + y
  {
    var z := Xor(x, y);
    XorHalves(x, y);
    XorHalves(z, y);
    if x == 0 && y == 0 {
    } else {
      XorCancels(x / 2, y / 2);
      Halves(Xor(z, y), x);
    }
  }

  lemma {:induction false} XorZero(x: nat)
    ensures Xor(x, 0) == x
  {
    if x > 0 {
      XorZero(x / 2);
      XorHalves(x, 0);
      Halves(Xor(x, 0), x);
    }
  }

  lemma {:induction false} XorBelow(x: nat, y: nat, k: nat)
    requires x < Pow2(k) && y < Pow2(k)
    ensures Xor(x, y) < Pow2(k)
  {
    if k > 0 {
      XorBelow(x / 2, y / 2, k - 1);
      XorHalves(x, y);
    }
  }

  /** (x ^ y) >> k == (x >> k) ^ (y >> k) */
  lemma {:induction false} XorShifts(x: nat, y: nat, k: nat)
    ensures Shr(Xor(x, y), k) == Xor(Shr(x, k), Shr(y, k))
    decreases k
  {
    if k > 0 {
      XorHalves(x, y);
      XorShifts(x / 2, y / 2, k - 1);
    }
  }

  lemma {:induction false} ShrAtMost(v: nat, k: nat)
    ensures Shr(v, k) <= v
    ensures v > 0 && k >= 1 ==> Shr(v, k) < v
    decreases k
  {
    if k > 0 {
      ShrAtMost(v / 2, k - 1);
    }
  }

  lemma PowerValues()
    ensures Pow2(8) == 0x100 && Pow2(32) == U32_LIMIT && Pow2(64) == U64_LIMIT
  {
    assert Pow2(4) == 16;
    assert Pow2(12) == 0x1000;
    assert Pow2(16) == 0x1_0000;
    assert Pow2(20) == 0x10_0000;
    assert Pow2(24) == 0x100_0000;
    assert Pow2(28) == 0x1000_0000;
    assert Pow2(36) == 0x10_0000_0000;
    assert Pow2(40) == 0x100_0000_0000;
    assert Pow2(44) == 0x1000_0000_0000;
    assert Pow2(48) == 0x1_0000_0000_0000;
    assert Pow2(52) == 0x10_0000_0000_0000;
    assert Pow2(56) == 0x100_0000_0000_0000;
    assert Pow2(60) == 0x1000_0000_0000_0000;
  }

  // ---- sums over byte strings ----

  /** A weight of every byte, added up. */
  function Direct(w: byte -> nat, s: seq<byte>): nat {
    if s == [] then 0 else Direct(w, s[..|s| - 1]) + w(s[|s| - 1])
  }

  function ByteBits(v: byte): nat { BitCount(v) }

  /** Differing bits of two byte strings, the longer one cut to the shorter. */
  function Hamming(a: seq<byte>, b: seq<byte>): nat {
    var n := Min(|a|, |b|);
    if n == 0 then 0 else Hamming(a[..n - 1], b[..n - 1]) + BitCount(Xor(a[n - 1], b[n - 1]))
  }

  /** zip stops at the shorter sequence. */
  lemma HammingCuts(a: seq<byte>, b: seq<byte>, n: nat, c: seq<byte>, d: seq<byte>)
    requires n == Min(|a|, |b|) && c == a[..n] && d == b[..n]
    ensures Hamming(a, b) == Hamming(c, d)
  {
    if n > 0 {
      assert c[..n - 1] == a[..n - 1] && d[..n - 1] == b[..n - 1];
    }
  }

  lemma {:induction false} HammingIsMismatch(a: seq<byte>, b: seq<byte>)
    requires |a| == |b|
    ensures Hamming(a, b) == Mismatch(BitsOf(a), BitsOf(b), 8 * |a|)
  {
    if a != [] {
      var n := |a| - 1;
      var r, q := BitsOf(a[..n]), BitsOf(b[..n]);
      var x, y := LowBits(a[n], 8), LowBits(b[n], 8);
      HammingIsMismatch(a[..n], b[..n]);
      ByteBelow(a[n]);
      ByteBelow(b[n]);
      XorCountsMismatches(a[n], b[n], 8);
      MismatchConcat(r, q, x, y, 8);
    }
  }

  lemma {:induction false} MismatchConcat(r: seq<bit>, q: seq<bit>, x: seq<bit>, y: seq<bit>, k: nat)
    requires |r| == |q| && k <= |x| && k <= |y|
    ensures Mismatch(r + x, q + y, |r| + k) == Mismatch(r, q, |r|) + Mismatch(x, y, k)
  {
    if k == 0 {
      MismatchPrefix(r, q, x, y, |r|);
    } else {
      MismatchConcat(r, q, x, y, k - 1);
    }
  }

  lemma HammingSnoc(a: seq<byte>, b: seq<byte>, x: byte, y: byte)
    requires |a| == |b|
    ensures Hamming(a + [x], b + [y]) == Hamming(a, b) + BitCount(Xor(x, y))
  {
    assert (a + [x])[..|a|] == a && (b + [y])[..|b|] == b;
  }

  lemma {:induction false} HammingConcat(a: seq<byte>, b: seq<byte>, c: seq<byte>, d: seq<byte>)
    requires |a| == |b| && |c| == |d|
    ensures Hamming(a + c, b + d) == Hamming(a, b) + Hamming(c, d)
  {
    if c == [] {
      assert a + c == a && b + d == b;
    } else {
      var n := |c| - 1;
      HammingConcat(a, b, c[..n], d[..n]);
      HammingSnoc(a + c[..n], b + d[..n], c[n], d[n]);
      HammingSnoc(c[..n], d[..n], c[n], d[n]);
      assert a + c[..n] + [c[n]] == a + c && b + d[..n] + [d[n]] == b + d;
      assert c[..n] + [c[n]] == c && d[..n] + [d[n]] == d;
    }
  }

  lemma {:induction false} HammingZeroIff(a: seq<byte>, b: seq<byte>)
    requires |a| == |b|
    ensures Hamming(a, b) == 0 <==> a == b
  {
    if a != [] {
      var n := |a| - 1;
      HammingZeroIff(a[..n], b[..n]);
      XorZeroIff(a[n], b[n]);
      assert a == a[..n] + [a[n]] && b == b[..n] + [b[n]];
    }
  }
}
