/** The deterministic generator of the lab keys: a 64-bit counter with an odd
    increment, scrambled by a bijection. */
module DeterministicRng {
  import opened Bits
  import opened Bytes

  const INCREMENT: u64 := 0x9E3779B97F4A7C15
  const MULTIPLIER1: u64 := 0xBF58476D1CE4E5B9
  const MULTIPLIER2: u64 := 0x94D049BB133111EB

  /** Inverses modulo 2^64. */
  const INCREMENT_INV: u64 := 0xF1DE83E19937733D
  const MULTIPLIER1_INV: u64 := 0x96DE1B173F119089
  const MULTIPLIER2_INV: u64 := 0x319642B2D24D8EC3

  // ---- modular arithmetic ----

  lemma DivUnique(a: nat, q: nat, r: nat, m: nat)
    requires m > 0 && a == q * m + r && r < m
    ensures a / m == q && a % m == r
  {
    var q', r' := a / m, a % m;
    assert a == q' * m + r';
    if q' < q {
      MulMono(m, q' + 1, q);
    } else if q' > q {
      MulMono(m, q + 1, q');
    }
  }

  lemma ModShift(a: nat, k: nat, m: nat)
    requires m > 0
    ensures (a + k * m) % m == a % m
  {
    var q := a / m;
    assert a + k * m == (q + k) * m + a % m;
    DivUnique(a + k * m, q + k, a % m, m);
  }

  lemma ModAdd(a: nat, b: nat, m: nat)
    requires m > 0
    ensures (a % m + b) % m == (a + b) % m
  {
    var q := a / m;
    assert a + b == (a % m + b) + q * m;
    ModShift(a % m + b, q, m);
  }

  lemma ModMul(a: nat, b: nat, m: nat)
    requires m > 0
    ensures (a % m) * b % m == a * b % m
  {
    var q := a / m;
    assert a == q * m + a % m;
    assert a * b == (a % m) * b + (q * b) * m;
    ModShift((a % m) * b, q * b, m);
  }

  lemma ModSmall(a: nat, m: nat)
    requires a < m
    ensures a % m == a
  {
  }

  /** Multiplying by a word and then by its inverse is the identity. */
  lemma MulInvertible(z: nat, a: nat, inv: nat, m: nat)
    requires z < m && a * inv % m == 1
    ensures z * a % m * inv % m == z
  {
    ModMul(z * a, inv, m);
    assert z * a * inv == (a * inv) * z;
    ModMul(a * inv, z, m);
    ModSmall(z, m);
  }

  lemma MulVanishes(d: nat, a: nat, m: nat)
    requires m > 0 && d % m == 0
    ensures d * a % m == 0
  {
    ModMul(d, a, m);
    assert (d % m) * a == 0;
    ModSmall(0, m);
  }

  /** A multiple of an invertible word vanishes only if the factor does. */
  lemma MulCancels(d: nat, a: nat, inv: nat, m: nat)
    requires m > 0 && a * inv % m == 1 && d * a % m == 0
    ensures d % m == 0
  {
    MulVanishes(d * a, inv, m);
    assert d * a * inv == (a * inv) * d;
    ModMul(a * inv, d, m);
  }

  lemma SameResidueIff(a: nat, d: nat, m: nat)
    requires m > 0
    ensures a % m == (a + d) % m <==> d % m == 0
  {
    var qa, ra, qd, rd := a / m, a % m, d / m, d % m;
    assert (qa + qd) * m == qa * m + qd * m;
    assert (qa + qd + 1) * m == (qa + qd) * m + m;
    if ra + rd < m {
      DivUnique(a + d, qa + qd, ra + rd, m);
    } else {
      DivUnique(a + d, qa + qd + 1, ra + rd - m, m);
    }
  }

  lemma Inverses()
    ensures INCREMENT * INCREMENT_INV % U64_LIMIT == 1
    ensures MULTIPLIER1 * MULTIPLIER1_INV % U64_LIMIT == 1
    ensures MULTIPLIER2 * MULTIPLIER2_INV % U64_LIMIT == 1
  {
  }

  // ---- the output function ----

  /** z ^ (z >> k) */
  function Fold(z: nat, k: nat): nat {
    Xor(z, Shr(z, k))
  }

  /** Its inverse: put back the top bits first. */
  function Unfold(w: nat, k: nat): nat
    requires k >= 1
  {
    if w == 0 then 0
    else
      ShrAtMost(w, k);
      Xor(w, Unfold(Shr(w, k), k))
  }

  lemma {:induction false} ShrOfZero(k: nat)
    ensures Shr(0, k) == 0
  {
    if k > 0 {
      ShrOfZero(k - 1);
    }
  }

  lemma NoBits()
    ensures BitCount(0) == 0
  {
  }

  lemma {:induction false} UnfoldFold(z: nat, k: nat)
    requires k >= 1
    ensures Unfold(Fold(z, k), k) == z
  {
    var t := Shr(z, k);
    if z == 0 {
      ShrOfZero(k);
      XorZero(0);
    } else {
      ShrAtMost(z, k);
      UnfoldFold(t, k);
      XorShifts(z, t, k);
      XorCancels(z, t);
      XorZeroIff(z, t);
      NoBits();
    }
  }

  lemma {:induction false} FoldUnfold(w: nat, k: nat)
    requires k >= 1
    ensures Fold(Unfold(w, k), k) == w
  {
    if w == 0 {
      ShrOfZero(k);
      XorZero(0);
    } else {
      ShrAtMost(w, k);
      var t := Shr(w, k);
      var rest := Unfold(t, k);
      FoldUnfold(t, k);
      XorShifts(w, rest, k);
      XorCancels(rest, Shr(rest, k));
      XorCancels(w, rest);
    }
  }

  lemma FoldBelow(z: u64, k: nat)
    ensures Fold(z, k) < U64_LIMIT
  {
    ShrAtMost(z, k);
    PowerValues();
    XorBelow(z, Shr(z, k), 64);
  }

  /** One xorshift-multiply round. */
  function Round(z: u64, k: nat, multiplier: u64): u64 {
    FoldBelow(z, k);
    Fold(z, k) * multiplier % U64_LIMIT
  }

  lemma RoundInjective(z: u64, y: u64, k: nat, multiplier: u64, inv: u64)
    requires k >= 1 && multiplier * inv % U64_LIMIT == 1 && Round(z, k, multiplier) == Round(y, k, multiplier)
    ensures z == y
  {
    FoldBelow(z, k);
    FoldBelow(y, k);
    MulInvertible(Fold(z, k), multiplier, inv, U64_LIMIT);
    MulInvertible(Fold(y, k), multiplier, inv, U64_LIMIT);
    UnfoldFold(z, k);
    UnfoldFold(y, k);
  }

  /** What next_u64 returns for an already advanced state. */
  function Output(state: u64): u64 {
    var z := Round(Round(state, 30, MULTIPLIER1), 27, MULTIPLIER2);
    FoldBelow(z, 31);
    Fold(z, 31)
  }

  /** The scrambler maps different 64-bit words to different 64-bit words, so it
      is a bijection on them. */
  lemma OutputInjective(a: u64, b: u64)
    ensures Output(a) == Output(b) <==> a == b
  {
    if Output(a) == Output(b) {
      var a1, b1 := Round(a, 30, MULTIPLIER1), Round(b, 30, MULTIPLIER1);
      Inverses();
      UnfoldFold(Round(a1, 27, MULTIPLIER2), 31);
      UnfoldFold(Round(b1, 27, MULTIPLIER2), 31);
      RoundInjective(a1, b1, 27, MULTIPLIER2, MULTIPLIER2_INV);
      RoundInjective(a, b, 30, MULTIPLIER1, MULTIPLIER1_INV);
    }
  }

  lemma {:induction false} UnfoldBelow(w: nat, k: nat, n: nat)
    requires k >= 1 && w < Pow2(n)
    ensures Unfold(w, k) < Pow2(n)
  {
    if w > 0 {
      ShrAtMost(w, k);
      UnfoldBelow(Shr(w, k), k, n);
      XorBelow(w, Unfold(Shr(w, k), k), n);
    }
  }

  lemma RoundOnto(w: u64, k: nat, multiplier: u64, inv: u64) returns (z: u64)
    requires k >= 1 && inv * multiplier % U64_LIMIT == 1
    ensures Round(z, k, multiplier) == w
  {
    var back := w * inv % U64_LIMIT;
    PowerValues();
    UnfoldBelow(back, k, 64);
    FoldUnfold(back, k);
    MulInvertible(w, inv, multiplier, U64_LIMIT);
    z := Unfold(back, k);
  }

  /** ... and every word is the output of some state. */
  lemma OutputOnto(output: u64) returns (state: u64)
    ensures Output(state) == output
  {
    Inverses();
    PowerValues();
    UnfoldBelow(output, 31, 64);
    FoldUnfold(output, 31);
    var z := RoundOnto(Unfold(output, 31), 27, MULTIPLIER2, MULTIPLIER2_INV);
    state := RoundOnto(z, 30, MULTIPLIER1, MULTIPLIER1_INV);
  }

  // ---- the sequence of states ----

  function Advance(state: u64): u64 {
    (state + INCREMENT) % U64_LIMIT
  }

  /** The state after k calls. */
  function StateAfter(state: u64, k: nat): u64 {
    if k == 0 then state else Advance(StateAfter(state, k - 1))
  }

  lemma {:induction false} StateAfterIs(state: u64, k: nat)
    ensures StateAfter(state, k) == (state + k * INCREMENT) % U64_LIMIT
  {
    if k > 0 {
      StateAfterIs(state, k - 1);
      ModAdd(state + (k - 1) * INCREMENT, INCREMENT, U64_LIMIT);
    } else {
      ModSmall(state, U64_LIMIT);
    }
  }

  /** The k-th output, counting from 1. */
  function Nth(state: u64, k: nat): u64 {
    Output(StateAfter(state, k))
  }

  lemma StatesRepeatIff(state: u64, i: nat, j: nat)
    requires i <= j
    ensures StateAfter(state, i) == StateAfter(state, j) <==> (j - i) % U64_LIMIT == 0
  {
    StateAfterIs(state, i);
    StateAfterIs(state, j);
    SameResidueIff(state + i * INCREMENT, (j - i) * INCREMENT, U64_LIMIT);
    Inverses();
    if (j - i) % U64_LIMIT == 0 {
      MulVanishes(j - i, INCREMENT, U64_LIMIT);
    } else if (j - i) * INCREMENT % U64_LIMIT == 0 {
      MulCancels(j - i, INCREMENT, INCREMENT_INV, U64_LIMIT);
    }
  }

  /** Two calls give the same output iff they are a multiple of 2^64 apart: the
      generator never repeats within its period, and then repeats exactly. */
  lemma RepeatsIff(state: u64, i: nat, j: nat)
    requires i <= j
    ensures Nth(state, i) == Nth(state, j) <==> (j - i) % U64_LIMIT == 0
  {
    OutputInjective(StateAfter(state, i), StateAfter(state, j));
    StatesRepeatIff(state, i, j);
  }

  // ---- the class ----

  /** The output stream as bytes, least significant first in each word. */
  function Stream(state: u64, words: nat): (s: seq<byte>)
    ensures |s| == 8 * words
  {
    if words == 0 then [] else Stream(state, words - 1) + Le(8, Nth(state, words))
  }

  /** Longer streams extend shorter ones, so a prefix does not depend on how
      many words were drawn. */
  lemma {:induction false} StreamPrefix(state: u64, m: nat, n: nat)
    requires m <= n
    ensures Stream(state, n)[..8 * m] == Stream(state, m)
  {
    if m < n {
      StreamPrefix(state, m, n - 1);
      PrefixOfSum(Stream(state, n - 1), Le(8, Nth(state, n)), 8 * m);
    }
  }

  lemma PrefixOfSum<T>(a: seq<T>, b: seq<T>, k: nat)
    requires k <= |a| + |b|
    ensures (a + b)[..k] == if k <= |a| then a[..k] else a + b[..k - |a|]
  {
  }

  lemma StreamNext(state: u64, words: nat, next: nat)
    requires 8 * words <= next <= 8 * words + 8
    ensures Stream(state, words + 1)[..next]
         == Stream(state, words)[..8 * words] + Le(8, Nth(state, words + 1))[..next - 8 * words]
  {
    PrefixOfSum(Stream(state, words), Le(8, Nth(state, words + 1)), next);
    assert Stream(state, words)[..8 * words] == Stream(state, words);
  }

  /** The inner loop of fill: one block, cut at the end of the buffer's part. */
  method WriteBlock(out: array<byte>, offset: nat, length: nat, block: seq<byte>) returns (next: nat)
    requires offset <= length <= out.Length
    modifies out
    ensures next == Min(offset + |block|, length)
    ensures out[..next] == old(out[..offset]) + block[..next - offset]
    ensures out[length..] == old(out[length..])
  {
    next := offset;
    for i := 0 to |block|
      invariant next == offset + i <= length
      invariant out[..next] == old(out[..offset]) + block[..i]
      invariant out[length..] == old(out[length..])
    {
      if next >= length {
        return;
      }
      out[next] := block[i];
      next := next + 1;
    }
  }

  class Rng {
    var state: u64

    /** The first eight bytes of the seed digest, little endian. */
    constructor (digest: seq<byte>)
      requires |digest| == 64
      ensures state == FromLe(digest[..8])
    {
      LeOfFromLe(digest[..8]);
      RadixValues();
      state := FromLe(digest[..8]);
    }

    method NextU64() returns (z: u64)
      modifies this
      ensures state == Advance(old(state)) && z == Output(state)
      ensures
        var a := Xor(state, Shr(state, 30)) * 0xBF58476D1CE4E5B9 % 0x1_0000_0000_0000_0000;
        var b := Xor(a, Shr(a, 27)) * 0x94D049BB133111EB % 0x1_0000_0000_0000_0000;
        state == (old(state) + 0x9E3779B97F4A7C15) % 0x1_0000_0000_0000_0000 && z == Xor(b, Shr(b, 31))
    {
      state := (state + INCREMENT) % U64_LIMIT;
      z := state;
      z := Round(z, 30, MULTIPLIER1);
      z := Round(z, 27, MULTIPLIER2);
      FoldBelow(z, 31);
      z := Fold(z, 31);
    }

    /** fill: whole words until the length is reached, the last one cut. It
        writes exactly the first `length` bytes of the stream and advances the
        state by the number of words that takes, rounded up. */
    method Fill(out: array<byte>, length: nat)
      requires length <= out.Length
      modifies this, out
      ensures out[..length] == Stream(old(state), (length + 7) / 8)[..length]
      ensures out[length..] == old(out[length..])
      ensures state == StateAfter(old(state), (length + 7) / 8)
    {
      var offset := 0;
      ghost var words, s0 := 0, state;
      while offset < length
        invariant offset == Min(8 * words, length) && words <= (length + 7) / 8
        invariant state == StateAfter(s0, words)
        invariant out[..offset] == Stream(s0, words)[..offset]
        invariant out[length..] == old(out[length..])
        decreases length - offset
      {
        var z := NextU64();
        StreamNext(s0, words, Min(offset + 8, length));
        offset := WriteBlock(out, offset, length, Le(8, z));
        words := words + 1;
      }
    }
  }
}
