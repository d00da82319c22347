/** Distances between PUF samples: the pairwise list, and the double counting that
    ties its sum to the per-bit counts. */
module PufDistances {
  import opened Bytes
  import opened Bits
  import opened BitCounts

  /** bits_of, by shifts. */
  method BitsOfSample(sample: seq<byte>) returns (bits: seq<bit>)
    ensures bits == BitsOf(sample)
  {
    bits := [];
    for n := 0 to |sample|
      invariant bits == BitsOf(sample[..n])
    {
      var b := sample[n];
      ghost var done := bits;
      for i := 0 to 8
        invariant bits == done + LowBits(b, 8)[..i]
      {
        LowBitsAreShifts(b, 8, i);
        assert LowBits(b, 8)[..i + 1] == LowBits(b, 8)[..i] + [LowBits(b, 8)[i]];
        bits := bits + [Shr(b, 7 - i) % 2];
      }
      assert LowBits(b, 8)[..8] == LowBits(b, 8);
      assert sample[..n + 1][..n] == sample[..n];
    }
    assert sample[..|sample|] == sample;
  }

  // ---- the list of distances ----

  function RowDistances(a: seq<byte>, rest: seq<seq<byte>>): (d: seq<nat>)
    ensures |d| == |rest|
  {
    if rest == [] then [] else [Hamming(a, rest[0])] + RowDistances(a, rest[1..])
  }

  /** Distances of the first sample to all later ones, then of the second, ... */
  function DistancesOf(samples: seq<seq<byte>>): seq<nat> {
    if samples == [] then [] else RowDistances(samples[0], samples[1..]) + DistancesOf(samples[1..])
  }

  /** pairwise_distances: the two nested loops. */
  method PairwiseDistances(samples: seq<seq<byte>>) returns (distances: seq<nat>)
    ensures distances == DistancesOf(samples)
  {
    distances := [];
    for i := 0 to |samples|
      invariant distances + DistancesOf(samples[i..]) == DistancesOf(samples)
    {
      ghost var done, later := distances, samples[i + 1..];
      assert samples[i..][1..] == later;
      for j := i + 1 to |samples|
        invariant distances + RowDistances(samples[i], samples[j..]) == done + RowDistances(samples[i], later)
      {
        assert samples[j..][1..] == samples[j + 1..];
        var d := Hamming(samples[i], samples[j]);
        Associate(distances, [d], RowDistances(samples[i], samples[j + 1..]));
        distances := distances + [d];
      }
      assert distances == done + RowDistances(samples[i], later);
      Associate(done, RowDistances(samples[i], later), DistancesOf(later));
    }
  }

  /** n samples have n (n - 1) / 2 distances. */
  lemma {:induction false} DistanceCount(samples: seq<seq<byte>>)
    ensures 2 * |DistancesOf(samples)| == |samples| * (|samples| - 1)
  {
    if samples != [] {
      var n := |samples| - 1;
      DistanceCount(samples[1..]);
      assert (n + 1) * n == n * (n - 1) + 2 * n;
    }
  }

  // ---- per-bit counts ----

  /** sum(row[b] for row in bit_samples) */
  function Ones(samples: seq<seq<byte>>, b: nat): nat
    requires forall i :: 0 <= i < |samples| ==> b < 8 * |samples[i]|
  {
    if samples == [] then 0 else BitsOf(samples[0])[b] + Ones(samples[1..], b)
  }

  /** Later samples whose bit b is not x. */
  function Differ(x: bit, rest: seq<seq<byte>>, b: nat): nat
    requires forall i :: 0 <= i < |rest| ==> b < 8 * |rest[i]|
  {
    if rest == [] then 0 else (if BitsOf(rest[0])[b] == x then 0 else 1) + Differ(x, rest[1..], b)
  }

  predicate SameSize(samples: seq<seq<byte>>, size: nat) {
    forall i :: 0 <= i < |samples| ==> |samples[i]| == size
  }

  lemma {:induction false} OnesBounded(samples: seq<seq<byte>>, b: nat)
    requires forall i :: 0 <= i < |samples| ==> b < 8 * |samples[i]|
    ensures Ones(samples, b) <= |samples|
  {
    if samples != [] {
      OnesBounded(samples[1..], b);
    }
  }

  lemma {:induction false} DifferIs(x: bit, rest: seq<seq<byte>>, b: nat)
    requires forall i :: 0 <= i < |rest| ==> b < 8 * |rest[i]|
    ensures Differ(x, rest, b) == if x == 1 then |rest| - Ones(rest, b) else Ones(rest, b)
  {
    if rest != [] {
      DifferIs(x, rest[1..], b);
    }
  }

  /** Differences of one sample against the rest, over the first k bits, added
      up column by column. */
  function ColumnDiffers(a: seq<byte>, rest: seq<seq<byte>>, k: nat): nat
    requires SameSize(rest, |a|) && k <= 8 * |a|
  {
    if k == 0 then 0 else ColumnDiffers(a, rest, k - 1) + Differ(BitsOf(a)[k - 1], rest, k - 1)
  }

  /** The same, added up sample by sample. */
  function RowMismatch(a: seq<byte>, rest: seq<seq<byte>>, k: nat): nat
    requires SameSize(rest, |a|) && k <= 8 * |a|
  {
    if rest == [] then 0 else Mismatch(BitsOf(a), BitsOf(rest[0]), k) + RowMismatch(a, rest[1..], k)
  }

  lemma {:induction false} RowMismatchNextColumn(a: seq<byte>, rest: seq<seq<byte>>, k: nat)
    requires SameSize(rest, |a|) && 0 < k <= 8 * |a|
    ensures RowMismatch(a, rest, k) == RowMismatch(a, rest, k - 1) + Differ(BitsOf(a)[k - 1], rest, k - 1)
  {
    if rest != [] {
      RowMismatchNextColumn(a, rest[1..], k);
    }
  }

  lemma {:induction false} RowMismatchNone(a: seq<byte>, rest: seq<seq<byte>>)
    requires SameSize(rest, |a|)
    ensures RowMismatch(a, rest, 0) == 0
  {
    if rest != [] {
      RowMismatchNone(a, rest[1..]);
    }
  }

  lemma {:induction false} RowsAreColumns(a: seq<byte>, rest: seq<seq<byte>>, k: nat)
    requires SameSize(rest, |a|) && k <= 8 * |a|
    ensures RowMismatch(a, rest, k) == ColumnDiffers(a, rest, k)
  {
    if k == 0 {
      RowMismatchNone(a, rest);
    } else {
      RowsAreColumns(a, rest, k - 1);
      RowMismatchNextColumn(a, rest, k);
    }
  }

  lemma {:induction false} RowTotal(a: seq<byte>, rest: seq<seq<byte>>)
    requires SameSize(rest, |a|)
    ensures Total(RowDistances(a, rest)) == RowMismatch(a, rest, 8 * |a|)
  {
    if rest != [] {
      RowTotal(a, rest[1..]);
      HammingIsMismatch(a, rest[0]);
      assert RowDistances(a, rest)[1..] == RowDistances(a, rest[1..]);
    }
  }

  /** ones * (n - ones), added up over the first k bit positions. */
  function Spread(samples: seq<seq<byte>>, size: nat, k: nat): nat
    requires SameSize(samples, size) && k <= 8 * size
  {
    if k == 0 then 0
    else
      OnesBounded(samples, k - 1);
      SpreadTermNat(|samples|, Ones(samples, k - 1));
      Spread(samples, size, k - 1) + Ones(samples, k - 1) * (|samples| - Ones(samples, k - 1))
  }

  lemma SpreadTermNat(n: nat, ones: nat)
    requires ones <= n
    ensures ones * (n - ones) >= 0
    ensures ones * (n - ones) == 0 <==> ones == 0 || ones == n
    ensures 4 * (ones * (n - ones)) <= n * n
  {
    var d := n - 2 * ones;
    assert d * d >= 0;
    assert n * n - 4 * (ones * (n - ones)) == d * d;
  }

  /** Adding one sample in front. */
  lemma {:induction false} SpreadGrows(a: seq<byte>, rest: seq<seq<byte>>, k: nat)
    requires SameSize(rest, |a|) && k <= 8 * |a|
    ensures Spread([a] + rest, |a|, k) == Spread(rest, |a|, k) + ColumnDiffers(a, rest, k)
  {
    if k > 0 {
      SpreadGrows(a, rest, k - 1);
      var x, t, m := BitsOf(a)[k - 1], Ones(rest, k - 1), |rest|;
      OnesBounded(rest, k - 1);
      DifferIs(x, rest, k - 1);
      assert ([a] + rest)[1..] == rest;
      assert Ones([a] + rest, k - 1) == x + t;
      SpreadTermGrows(x, t, m);
    }
  }

  lemma SpreadTermGrows(x: bit, t: nat, m: nat)
    requires t <= m
    ensures (x + t) * (m + 1 - (x + t)) == t * (m - t) + (if x == 1 then m - t else t)
  {
    if x == 1 {
      assert (1 + t) * (m - t) == (m - t) + t * (m - t);
    } else {
      assert t * (m + 1 - t) == t * (m - t) + t;
    }
  }

  /** The double-counting identity: summed over all pairs of samples, the
      distances are the products of ones and zeros summed over all bits. */
  lemma {:induction false} DoubleCounting(samples: seq<seq<byte>>, size: nat)
    requires SameSize(samples, size)
    ensures Total(DistancesOf(samples)) == Spread(samples, size, 8 * size)
  {
    if samples == [] {
      SpreadOfNone(size, 8 * size);
    } else {
      var a, rest := samples[0], samples[1..];
      assert samples == [a] + rest;
      DoubleCounting(rest, size);
      RowTotal(a, rest);
      RowsAreColumns(a, rest, 8 * size);
      SpreadGrows(a, rest, 8 * size);
      TotalConcat(RowDistances(a, rest), DistancesOf(rest));
    }
  }

  lemma {:induction false} SpreadOfNone(size: nat, k: nat)
    requires k <= 8 * size
    ensures Spread([], size, k) == 0
  {
    if k > 0 {
      SpreadOfNone(size, k - 1);
    }
  }

  // ---- what summarize reports ----

  /** The bit positions, of the first k, that are 0 in all samples or 1 in all. */
  function StableBits(samples: seq<seq<byte>>, size: nat, k: nat): nat
    requires SameSize(samples, size) && k <= 8 * size
  {
    if k == 0 then 0
    else StableBits(samples, size, k - 1)
         + (if Ones(samples, k - 1) == 0 || Ones(samples, k - 1) == |samples| then 1 else 0)
  }

  lemma {:induction false} StableIffNoSpread(samples: seq<seq<byte>>, size: nat, k: nat)
    requires SameSize(samples, size) && k <= 8 * size
    ensures StableBits(samples, size, k) <= k
    ensures StableBits(samples, size, k) == k <==> Spread(samples, size, k) == 0
    ensures 4 * Spread(samples, size, k) <= k * (|samples| * |samples|)
  {
    if k > 0 {
      StableIffNoSpread(samples, size, k - 1);
      OnesBounded(samples, k - 1);
      SpreadTermNat(|samples|, Ones(samples, k - 1));
      var sq := |samples| * |samples|;
      assert k * sq == (k - 1) * sq + sq;
    }
  }

  function Largest(s: seq<nat>): nat {
    if s == [] then 0 else if s[0] > Largest(s[1..]) then s[0] else Largest(s[1..])
  }

  lemma {:induction false} LargestZeroIff(s: seq<nat>)
    ensures Largest(s) == 0 <==> Total(s) == 0
    ensures forall i :: 0 <= i < |s| ==> s[i] <= Largest(s)
  {
    if s != [] {
      LargestZeroIff(s[1..]);
      assert forall i :: 1 <= i < |s| ==> s[i] == s[1..][i - 1];
    }
  }

  function Smallest(s: seq<nat>): nat {
    if s == [] then 0
    else if |s| == 1 || s[0] < Smallest(s[1..]) then s[0]
    else Smallest(s[1..])
  }

  lemma {:induction false} SmallestIs(s: seq<nat>)
    ensures forall i :: 0 <= i < |s| ==> Smallest(s) <= s[i]
    ensures s != [] ==> Smallest(s) in s
    ensures Smallest(s) <= Largest(s)
  {
    if |s| > 1 {
      SmallestIs(s[1..]);
      assert forall i :: 1 <= i < |s| ==> s[i] == s[1..][i - 1];
    }
  }

  lemma {:induction false} LargestIs(s: seq<nat>)
    ensures s != [] ==> Largest(s) in s
  {
    if |s| > 1 {
      LargestIs(s[1..]);
    }
  }

  lemma ExtremesAre(s: seq<nat>)
    ensures s == [] ==> Smallest(s) == Largest(s) == 0
    ensures s != [] ==> Smallest(s) in s && Largest(s) in s
    ensures forall d :: d in s ==> Smallest(s) <= d <= Largest(s)
  {
    SmallestIs(s);
    LargestIs(s);
    LargestZeroIff(s);
  }

  lemma CountsPairs(n: nat, count: nat)
    requires 2 * count == n * (n - 1)
    ensures n >= 2 <==> count > 0
  {
    if n >= 2 {
      MulMono(n, 1, n - 1);
    }
  }

  /** The bit positions, of the first k, that are one in at most 5 or at least 95
      of a hundred samples. */
  function NearStableBits(samples: seq<seq<byte>>, size: nat, k: nat): nat
    requires SameSize(samples, size) && k <= 8 * size
  {
    if k == 0 then 0
    else NearStableBits(samples, size, k - 1)
         + (if 20 * Ones(samples, k - 1) <= |samples| || 20 * Ones(samples, k - 1) >= 19 * |samples| then 1 else 0)
  }

  lemma {:induction false} StableIsNearStable(samples: seq<seq<byte>>, size: nat, k: nat)
    requires SameSize(samples, size) && k <= 8 * size
    ensures StableBits(samples, size, k) <= NearStableBits(samples, size, k) <= k
  {
    if k > 0 {
      StableIsNearStable(samples, size, k - 1);
    }
  }

  /** Ones over all samples and the first k positions. */
  function AllOnes(samples: seq<seq<byte>>, size: nat, k: nat): nat
    requires SameSize(samples, size) && k <= 8 * size
  {
    if k == 0 then 0 else AllOnes(samples, size, k - 1) + Ones(samples, k - 1)
  }

  /** Bit b of every sample. */
  function Column(samples: seq<seq<byte>>, b: nat): (c: seq<bit>)
    requires forall i :: 0 <= i < |samples| ==> b < 8 * |samples[i]|
    ensures |c| == |samples| && forall i :: 0 <= i < |c| ==> c[i] == BitsOf(samples[i])[b]
  {
    seq(|samples|, i requires 0 <= i < |samples| => BitsOf(samples[i])[b])
  }

  lemma SumOfOne(x: bit)
    ensures Sum([x]) == x
  {
    SumSnoc([], x);
    assert [] + [x] == [x];
  }

  lemma {:induction false} OnesAreColumn(samples: seq<seq<byte>>, b: nat)
    requires forall i :: 0 <= i < |samples| ==> b < 8 * |samples[i]|
    ensures Ones(samples, b) == Sum(Column(samples, b))
  {
    if samples != [] {
      var x, rest := BitsOf(samples[0])[b], Column(samples[1..], b);
      OnesAreColumn(samples[1..], b);
      SumConcat([x], rest);
      SumOfOne(x);
      assert Column(samples, b) == [x] + rest;
    }
  }

  /** The per-bit count is the number of samples that have a one there. */
  lemma OnesAreSamples(samples: seq<seq<byte>>, b: nat)
    requires forall i :: 0 <= i < |samples| ==> b < 8 * |samples[i]|
    ensures Ones(samples, b) == |OnesIn(Column(samples, b))|
  {
    OnesAreColumn(samples, b);
    SumIsCount(Column(samples, b));
  }

  /** Bit b is the same in all samples. */
  predicate Constant(samples: seq<seq<byte>>, b: nat)
    requires forall i :: 0 <= i < |samples| ==> b < 8 * |samples[i]|
  {
    forall i, j :: 0 <= i < |samples| && 0 <= j < |samples| ==> BitsOf(samples[i])[b] == BitsOf(samples[j])[b]
  }

  lemma {:induction false} OnesAllOrNone(samples: seq<seq<byte>>, b: nat)
    requires forall i :: 0 <= i < |samples| ==> b < 8 * |samples[i]|
    ensures Ones(samples, b) <= |samples|
    ensures Ones(samples, b) == 0 <==> forall i :: 0 <= i < |samples| ==> BitsOf(samples[i])[b] == 0
    ensures Ones(samples, b) == |samples| <==> forall i :: 0 <= i < |samples| ==> BitsOf(samples[i])[b] == 1
  {
    if samples != [] {
      OnesAllOrNone(samples[1..], b);
      assert forall i :: 1 <= i < |samples| ==> samples[i] == samples[1..][i - 1];
    }
  }

  lemma ConstantIff(samples: seq<seq<byte>>, b: nat)
    requires forall i :: 0 <= i < |samples| ==> b < 8 * |samples[i]|
    ensures Ones(samples, b) == 0 || Ones(samples, b) == |samples| <==> Constant(samples, b)
  {
    OnesAllOrNone(samples, b);
    if samples != [] && Constant(samples, b) {
      assert forall i :: 0 <= i < |samples| ==> BitsOf(samples[i])[b] == BitsOf(samples[0])[b];
    }
  }

  /** The stable positions. */
  function StableSet(samples: seq<seq<byte>>, size: nat, k: nat): set<nat>
    requires SameSize(samples, size) && k <= 8 * size
  {
    set b: nat | b < k && Constant(samples, b)
  }

  lemma StableSetNext(samples: seq<seq<byte>>, size: nat, k: nat)
    requires SameSize(samples, size) && k < 8 * size
    ensures |StableSet(samples, size, k + 1)| == |StableSet(samples, size, k)| + if Constant(samples, k) then 1 else 0
  {
    OneMore(StableSet(samples, size, k), StableSet(samples, size, k + 1), k, Constant(samples, k));
  }

  lemma {:induction false} StableIsCount(samples: seq<seq<byte>>, size: nat, k: nat)
    requires SameSize(samples, size) && k <= 8 * size
    ensures StableBits(samples, size, k) == |StableSet(samples, size, k)|
  {
    if k > 0 {
      StableIsCount(samples, size, k - 1);
      ConstantIff(samples, k - 1);
      StableSetNext(samples, size, k - 1);
    }
  }

  /** At most 5 percent, or at least 95 percent, of the samples have a one. */
  predicate NearAt(samples: seq<seq<byte>>, b: nat)
    requires forall i :: 0 <= i < |samples| ==> b < 8 * |samples[i]|
  {
    var ones := |OnesIn(Column(samples, b))|;
    100 * ones <= 5 * |samples| || 100 * ones >= 95 * |samples|
  }

  lemma NearIff(samples: seq<seq<byte>>, b: nat)
    requires forall i :: 0 <= i < |samples| ==> b < 8 * |samples[i]|
    ensures NearAt(samples, b) <==> 20 * Ones(samples, b) <= |samples| || 20 * Ones(samples, b) >= 19 * |samples|
  {
    OnesAreSamples(samples, b);
  }

  /** The positions at which nearly all samples agree. */
  function NearSet(samples: seq<seq<byte>>, size: nat, k: nat): set<nat>
    requires SameSize(samples, size) && k <= 8 * size
  {
    set b: nat | b < k && NearAt(samples, b)
  }

  /** A one at every position at which nearly all samples agree. */
  function NearFlags(samples: seq<seq<byte>>, size: nat): (f: seq<bit>)
    requires SameSize(samples, size)
    ensures |f| == 8 * size && forall b :: 0 <= b < |f| ==> (f[b] == 1 <==> NearAt(samples, b))
  {
    seq(8 * size, b requires 0 <= b < 8 * size => if NearAt(samples, b) then 1 else 0)
  }

  lemma {:induction false} NearSum(samples: seq<seq<byte>>, size: nat, k: nat, f: seq<bit>)
    requires SameSize(samples, size) && k <= 8 * size == |f|
    requires forall b :: 0 <= b < |f| ==>
      (f[b] == 1 <==> 20 * Ones(samples, b) <= |samples| || 20 * Ones(samples, b) >= 19 * |samples|)
    ensures NearStableBits(samples, size, k) == Sum(f[..k])
  {
    if k > 0 {
      NearSum(samples, size, k - 1, f);
      SumSnoc(f[..k - 1], f[k - 1]);
      assert f[..k] == f[..k - 1] + [f[k - 1]];
    }
  }

  lemma NearIsCount(samples: seq<seq<byte>>, size: nat)
    requires SameSize(samples, size)
    ensures NearStableBits(samples, size, 8 * size) == |NearSet(samples, size, 8 * size)|
  {
    var f := NearFlags(samples, size);
    forall b | 0 <= b < 8 * size
      ensures f[b] == 1 <==> 20 * Ones(samples, b) <= |samples| || 20 * Ones(samples, b) >= 19 * |samples|
    {
      NearIff(samples, b);
    }
    NearSum(samples, size, 8 * size, f);
    SumIsCount(f);
    assert f[..8 * size] == f;
    FlagsAreSet(samples, size, f);
  }

  lemma FlagsAreSet(samples: seq<seq<byte>>, size: nat, f: seq<bit>)
    requires SameSize(samples, size) && f == NearFlags(samples, size)
    ensures OnesIn(f) == NearSet(samples, size, 8 * size)
  {
  }

  lemma {:induction false} AllOnesGrows(a: seq<byte>, rest: seq<seq<byte>>, k: nat)
    requires SameSize(rest, |a|) && k <= 8 * |a|
    ensures AllOnes([a] + rest, |a|, k) == Sum(BitsOf(a)[..k]) + AllOnes(rest, |a|, k)
  {
    if k > 0 {
      AllOnesGrows(a, rest, k - 1);
      assert ([a] + rest)[1..] == rest;
      assert BitsOf(a)[..k] == BitsOf(a)[..k - 1] + [BitsOf(a)[k - 1]];
      SumSnoc(BitsOf(a)[..k - 1], BitsOf(a)[k - 1]);
    }
  }

  lemma {:induction false} AllOnesOfNone(size: nat, k: nat)
    requires k <= 8 * size
    ensures AllOnes([], size, k) == 0
  {
    if k > 0 {
      AllOnesOfNone(size, k - 1);
    }
  }

  /** The per-bit counts add up to the ones of the samples, laid end to end. */
  lemma {:induction false} AllOnesAreOnes(samples: seq<seq<byte>>, size: nat)
    requires SameSize(samples, size)
    ensures AllOnes(samples, size, 8 * size) == Direct(ByteBits, Flatten(samples))
  {
    if samples == [] {
      AllOnesOfNone(size, 8 * size);
    } else {
      var a, rest := samples[0], samples[1..];
      assert samples == [a] + rest;
      AllOnesAreOnes(rest, size);
      AllOnesGrows(a, rest, 8 * size);
      assert BitsOf(a)[..8 * size] == BitsOf(a);
      BytesSum(a);
      FlattenConcat([a], rest);
      DirectConcat(ByteBits, a, Flatten(rest));
    }
  }

  // ---- the list, pair by pair ----

  lemma {:induction false} RowAt(a: seq<byte>, rest: seq<seq<byte>>, j: nat)
    requires j < |rest|
    ensures RowDistances(a, rest)[j] == Hamming(a, rest[j])
  {
    if j > 0 {
      RowAt(a, rest[1..], j - 1);
    }
  }

  /** The distances in front of row i, for n samples. */
  function RowStart(n: nat, i: nat): nat
    requires i < n
  {
    if i == 0 then 0 else n - 1 + RowStart(n - 1, i - 1)
  }

  lemma NextProduct(k: int, p: int)
    ensures (k + 1) * (p + 1) == k * p + k + p + 1
  {
  }

  lemma {:induction false} RowStartIs(n: nat, i: nat)
    requires i < n
    ensures 2 * RowStart(n, i) == i * (2 * n - i - 1)
  {
    if i > 0 {
      RowStartIs(n - 1, i - 1);
      var k, p := i - 1, 2 * (n - 1) - (i - 1) - 1;
      assert i == k + 1 && 2 * n - i - 1 == p + 1;
      NextProduct(k, p);
    }
  }

  lemma BehindRow(samples: seq<seq<byte>>, at: nat)
    requires samples != [] && at < |DistancesOf(samples[1..])|
    ensures |samples| - 1 + at < |DistancesOf(samples)|
    ensures DistancesOf(samples)[|samples| - 1 + at] == DistancesOf(samples[1..])[at]
  {
    assert |RowDistances(samples[0], samples[1..])| == |samples| - 1;
  }

  lemma InFirstRow(samples: seq<seq<byte>>, j: nat)
    requires 0 < j < |samples|
    ensures j - 1 < |DistancesOf(samples)| && DistancesOf(samples)[j - 1] == Hamming(samples[0], samples[j])
  {
    RowAt(samples[0], samples[1..], j - 1);
  }

  lemma {:induction false} DistanceInRow(samples: seq<seq<byte>>, i: nat, j: nat, at: nat, d: seq<nat>)
    requires i < j < |samples| && at == RowStart(|samples|, i) + (j - i - 1) && d == DistancesOf(samples)
    ensures at < |d| && d[at] == Hamming(samples[i], samples[j])
  {
    if i == 0 {
      InFirstRow(samples, j);
    } else {
      var rest := samples[1..];
      assert rest[i - 1] == samples[i] && rest[j - 1] == samples[j];
      DistanceInRow(rest, i - 1, j - 1, at - |rest|, DistancesOf(rest));
      BehindRow(samples, at - |rest|);
    }
  }

  /** Where the distance of samples i and j stands, for i < j. */
  lemma DistanceAt(samples: seq<seq<byte>>, i: nat, j: nat, at: nat)
    requires i < j < |samples| && 2 * at == i * (2 * |samples| - i - 1) + 2 * (j - i - 1)
    ensures at < |DistancesOf(samples)| && DistancesOf(samples)[at] == Hamming(samples[i], samples[j])
  {
    RowStartIs(|samples|, i);
    DistanceInRow(samples, i, j, at, DistancesOf(samples));
  }

  datatype SummaryError = NoSamples | InconsistentSizes
  datatype Summary = Summary(samples: nat, bitLen: nat, ones: nat, stableBits: nat, nearStable: nat,
                             count: nat, total: nat, smallest: nat, largest: nat)
  datatype SummaryResult = Summarized(summary: Summary) | Refused(error: SummaryError)

  /** summarize, as integers: every rate it reports is one of these over another. */
  method Summarize(samples: seq<seq<byte>>) returns (r: SummaryResult)
    ensures r == Refused(NoSamples) <==> samples == []
    ensures r == Refused(InconsistentSizes) <==> samples != [] && !SameSize(samples, |samples[0]|)
    ensures r.Summarized? ==>
      var s, n := r.summary, |samples|;
      && s.samples == n && s.bitLen == 8 * |samples[0]|
      && 2 * s.count == n * (n - 1)
      && s.total == Total(DistancesOf(samples)) == Spread(samples, |samples[0]|, s.bitLen)
      && s.stableBits == |StableSet(samples, |samples[0]|, s.bitLen)|
      && 4 * s.total <= s.bitLen * (n * n)
      && (s.largest == 0 <==> s.stableBits == s.bitLen)
      && s.ones == Direct(ByteBits, Flatten(samples))
      && s.nearStable == |NearSet(samples, |samples[0]|, s.bitLen)| && s.stableBits <= s.nearStable <= s.bitLen
      && (n < 2 ==> s.smallest == s.largest == 0)
      && (n >= 2 ==> s.smallest in DistancesOf(samples) && s.largest in DistancesOf(samples))
      && forall d :: d in DistancesOf(samples) ==> s.smallest <= d <= s.largest
  {
    if samples == [] {
      return Refused(NoSamples);
    }
    var size := |samples[0]|;
    if !SameSize(samples, size) {
      return Refused(InconsistentSizes);
    }
    var distances := PairwiseDistances(samples);
    DistanceCount(samples);
    DoubleCounting(samples, size);
    StableIffNoSpread(samples, size, 8 * size);
    LargestZeroIff(distances);
    StableIsNearStable(samples, size, 8 * size);
    StableIsCount(samples, size, 8 * size);
    NearIsCount(samples, size);
    AllOnesAreOnes(samples, size);
    ExtremesAre(distances);
    CountsPairs(|samples|, |distances|);
    r := Summarized(Summary(|samples|, 8 * size, AllOnes(samples, size, 8 * size),
                            StableBits(samples, size, 8 * size), NearStableBits(samples, size, 8 * size),
                            |distances|, Total(distances), Smallest(distances), Largest(distances)));
  }

  /** The mean distance rate is at most n / (2 (n - 1)), with the two divisions
      of the script cleared: total / count / bit_len <= n / (2 (n - 1)). */
  lemma MeanRateBounded(samples: seq<seq<byte>>, size: nat)
    requires SameSize(samples, size) && |samples| >= 2
    ensures
      var n := |samples|;
      Total(DistancesOf(samples)) * (2 * (n - 1)) <= n * (|DistancesOf(samples)| * (8 * size))
  {
    var n, total, count, bits := |samples|, Total(DistancesOf(samples)), |DistancesOf(samples)|, 8 * size;
    DistanceCount(samples);
    DoubleCounting(samples, size);
    StableIffNoSpread(samples, size, bits);
    MeanArithmetic(n, total, count, bits);
  }

  lemma MeanArithmetic(n: nat, total: nat, count: nat, bits: nat)
    requires n >= 2 && 2 * count == n * (n - 1) && 4 * total <= bits * (n * n)
    ensures total * (2 * (n - 1)) <= n * (count * bits)
  {
    MulMono(n - 1, 4 * total, bits * (n * n));
    assert (n - 1) * (4 * total) == 2 * (total * (2 * (n - 1)));
    assert (n - 1) * (bits * (n * n)) == n * ((n * (n - 1)) * bits);
    assert n * ((2 * count) * bits) == 2 * (n * (count * bits));
  }
}
