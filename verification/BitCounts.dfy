/** Counts of bits as numbers of positions. */
module BitCounts {
  import opened Bytes
  import opened Bits

  /** A set of numbers and the same with n in it, or not. */
  lemma OneMore(s: set<nat>, t: set<nat>, n: nat, grows: bool)
    requires n !in s && t == if grows then s + {n} else s
    ensures |t| == |s| + if grows then 1 else 0
  {
  }

  function Sum(bits: seq<bit>): nat {
    if bits == [] then 0 else Sum(bits[..|bits| - 1]) + bits[|bits| - 1]
  }

  lemma SumSnoc(bits: seq<bit>, b: bit)
    ensures Sum(bits + [b]) == Sum(bits) + b
  {
    assert (bits + [b])[..|bits|] == bits;
  }

  lemma {:induction false} SumConcat(a: seq<bit>, b: seq<bit>)
    ensures Sum(a + b) == Sum(a) + Sum(b)
  {
    if b == [] {
      assert a + b == a;
    } else {
      SumConcat(a, b[..|b| - 1]);
      SumSnoc(a + b[..|b| - 1], b[|b| - 1]);
      assert a + b == a + b[..|b| - 1] + [b[|b| - 1]];
    }
  }

  /** The positions of ones. */
  function OnesIn(bits: seq<bit>): set<nat> {
    set k: nat | k < |bits| && bits[k] == 1
  }

  lemma {:induction false} SumIsCount(bits: seq<bit>)
    ensures Sum(bits) == |OnesIn(bits)|
  {
    if bits != [] {
      var n := |bits| - 1;
      SumIsCount(bits[..n]);
      OneMore(OnesIn(bits[..n]), OnesIn(bits), n, bits[n] == 1);
    }
  }

  lemma {:induction false} LowBitsSum(v: nat, k: nat)
    requires v < Pow2(k)
    ensures Sum(LowBits(v, k)) == BitCount(v)
  {
    if k > 0 {
      LowBitsSum(v / 2, k - 1);
      SumSnoc(LowBits(v / 2, k - 1), v % 2);
    }
  }

  lemma {:induction false} BytesSum(s: seq<byte>)
    ensures Direct(ByteBits, s) == Sum(BitsOf(s))
  {
    if s != [] {
      var n := |s| - 1;
      BytesSum(s[..n]);
      ByteBelow(s[n]);
      LowBitsSum(s[n], 8);
      SumConcat(BitsOf(s[..n]), LowBits(s[n], 8));
    }
  }

  /** The population counts of the bytes add up to the positions that hold a one. */
  lemma OnesAreBits(s: seq<byte>)
    ensures Direct(ByteBits, s) == |set k: nat | k < 8 * |s| && BitsOf(s)[k] == 1|
  {
    BytesSum(s);
    SumIsCount(BitsOf(s));
    assert OnesIn(BitsOf(s)) == set k: nat | k < 8 * |s| && BitsOf(s)[k] == 1;
  }

  lemma {:induction false} DirectConcat(w: byte -> nat, a: seq<byte>, b: seq<byte>)
    ensures Direct(w, a + b) == Direct(w, a) + Direct(w, b)
  {
    if b == [] {
      assert a + b == a;
    } else {
      DirectConcat(w, a, b[..|b| - 1]);
      assert (a + b)[..|a + b| - 1] == a + b[..|b| - 1];
    }
  }

  /** Mismatches are the positions at which the strings differ. */
  lemma {:induction false} MismatchIsCount(r: seq<bit>, q: seq<bit>, n: nat)
    requires n <= |r| && n <= |q|
    ensures Mismatch(r, q, n) == |set k: nat | k < n && r[k] != q[k]|
  {
    if n > 0 {
      MismatchIsCount(r, q, n - 1);
      var before, after := (set k: nat | k < n - 1 && r[k] != q[k]), (set k: nat | k < n && r[k] != q[k]);
      OneMore(before, after, n - 1, r[n - 1] != q[n - 1]);
    }
  }

  /** The distance of two byte strings is the number of their differing bits. */
  lemma HammingIsCount(a: seq<byte>, b: seq<byte>)
    requires |a| == |b|
    ensures Hamming(a, b) == |set k: nat | k < 8 * |a| && BitsOf(a)[k] != BitsOf(b)[k]|
  {
    HammingIsMismatch(a, b);
    MismatchIsCount(BitsOf(a), BitsOf(b), 8 * |a|);
  }

  /** A shift drops low bits. */
  lemma {:induction false} ShrIs(v: nat, k: nat)
    ensures Shr(v, k) == v / Pow2(k)
  {
    if k > 0 {
      ShrIs(v / 2, k - 1);
      HalfThenDivide(v, Pow2(k - 1));
    }
  }

  lemma HalfThenDivide(v: nat, p: nat)
    requires p > 0
    ensures v / 2 / p == v / (2 * p)
  {
    var q := v / 2 / p;
    var r := v / 2 % p;
    assert v / 2 == q * p + r;
    assert v == 2 * (q * p) + 2 * r + v % 2 == q * (2 * p) + (2 * r + v % 2);
    QuotientIs(v, q, 2 * r + v % 2, 2 * p);
  }

  lemma QuotientIs(a: nat, q: nat, r: nat, m: nat)
    requires m > 0 && a == q * m + r && r < m
    ensures a / m == q
  {
    var q' := a / m;
    assert a == q' * m + a % m;
    if q' < q {
      MulMono(m, q' + 1, q);
    } else if q' > q {
      MulMono(m, q + 1, q');
    }
  }
}
