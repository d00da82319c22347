/** The jitter deltas: wrapped 32-bit differences telescope to the true elapsed
    cycles, and the microsecond deltas lose less than one each. */
module AebJitter {
  import opened Bytes
  import opened AebTrial

  /** Every gap between accepted packets is under 2^32 cycles. */
  predicate ShortGaps(prev: nat, times: seq<nat>)
    decreases |times|
  {
    times != [] ==> prev <= times[0] < prev + U32_LIMIT && ShortGaps(times[0], times[1..])
  }

  function LastTime(prev: nat, times: seq<nat>): nat {
    if times == [] then prev else times[|times| - 1]
  }

  /** The sum of the 32-bit differences that cycles_to_us is given. */
  function CycleSum(prev: u32, times: seq<nat>): nat
    decreases |times|
  {
    if times == [] then 0
    else (CyclesNow(times[0]) - prev) % U32_LIMIT + CycleSum(CyclesNow(times[0]), times[1..])
  }

  /** A wrapped difference is the true one when that is under 2^32. */
  lemma GapSurvives(prev: nat, now: nat)
    requires prev <= now < prev + U32_LIMIT
    ensures (CyclesNow(now) - CyclesNow(prev)) % U32_LIMIT == now - prev
  {
    var gap := now - prev;
    assert (now % U32_LIMIT - prev % U32_LIMIT) % U32_LIMIT == gap % U32_LIMIT == gap;
  }

  lemma {:induction false} Telescopes(prev: nat, times: seq<nat>)
    requires ShortGaps(prev, times)
    ensures CycleSum(CyclesNow(prev), times) == LastTime(prev, times) - prev
    decreases |times|
  {
    if times != [] {
      GapSurvives(prev, times[0]);
      Telescopes(times[0], times[1..]);
    }
  }

  /** One rounding down loses less than one microsecond. */
  lemma FloorLoses(cycles: nat, rate: nat)
    requires rate > 0
    ensures cycles * 1_000_000 / rate * rate <= cycles * 1_000_000 < (cycles * 1_000_000 / rate + 1) * rate
  {
  }

  lemma BoundsAdd(us: nat, cycles: nat, us': nat, cycles': nat, n: nat, r: nat)
    requires us * r <= cycles * 1_000_000 < (us + 1) * r
    requires us' * r <= cycles' * 1_000_000 <= (us' + n) * r
    ensures (us + us') * r <= (cycles + cycles') * 1_000_000 < (us + us' + (n + 1)) * r
  {
    assert (us + us') * r == us * r + us' * r;
    assert (us + us' + (n + 1)) * r == (us + 1) * r + (us' + n) * r;
  }

  /** n deltas lose less than n microseconds between them. */
  lemma {:induction false} DeltaSumBounds(lim: Limits, prev: u32, times: seq<nat>)
    requires lim.Valid()
    ensures
      var us, cycles, r := Total(Deltas(lim, prev, times)), CycleSum(prev, times), lim.cyclesPerSecond;
      us * r <= cycles * 1_000_000 <= (us + |times|) * r
      && (times != [] ==> cycles * 1_000_000 < (us + |times|) * r)
    decreases |times|
  {
    if times != [] {
      var now, rest := CyclesNow(times[0]), times[1..];
      var cycles := (now - prev) % U32_LIMIT;
      DeltaSumBounds(lim, now, rest);
      assert Deltas(lim, prev, times)[1..] == Deltas(lim, now, rest);
      FloorLoses(cycles, lim.cyclesPerSecond);
      BoundsAdd(CyclesToUs(lim, prev, now), cycles, Total(Deltas(lim, now, rest)), CycleSum(now, rest), |rest|,
                lim.cyclesPerSecond);
    }
  }

  lemma CancelStrict(a: nat, b: nat, r: nat)
    requires a * r < b * r
    ensures a < b
  {
  }

  lemma DivideBound(a: nat, b: nat, r: nat)
    requires r > 0 && a * r <= b
    ensures a <= b / r
  {
    CancelStrict(a, b / r + 1, r);
  }

  /** True cycles from sample start to the last accepted packet. */
  function Elapsed(sampleStart: nat, times: seq<nat>): (cycles: nat)
    requires times != [] && ShortGaps(sampleStart, times)
  {
    Telescopes(sampleStart, times); times[|times| - 1] - sampleStart
  }

  /** us is at most the elapsed time in whole microseconds, and above the
      elapsed time less n microseconds. */
  ghost predicate WithinLoss(us: nat, n: nat, cycles: nat, rate: nat)
    requires rate > 0
  {
    us <= cycles * 1_000_000 / rate && cycles * 1_000_000 < (us + n) * rate
  }

  lemma FloorIff(us: nat, n: nat, cycles: nat, rate: nat)
    requires rate > 0 && us * rate <= cycles * 1_000_000 < (us + n) * rate
    ensures WithinLoss(us, n, cycles, rate)
  {
    DivideBound(us, cycles * 1_000_000, rate);
  }

  lemma DeltaSumWithin(lim: Limits, prev: u32, times: seq<nat>)
    requires lim.Valid() && times != []
    ensures WithinLoss(Total(Deltas(lim, prev, times)), |times|, CycleSum(prev, times), lim.cyclesPerSecond)
  {
    DeltaSumBounds(lim, prev, times);
    FloorIff(Total(Deltas(lim, prev, times)), |times|, CycleSum(prev, times), lim.cyclesPerSecond);
  }

  /** For n >= 1 accepted packets, the stored deltas add up to at most the true
      time from sample start to the last packet, in whole microseconds, and to
      more than that time less n microseconds. */
  lemma JitterTelescopes(lim: Limits, sampleStart: nat, times: seq<nat>)
    requires lim.Valid() && times != [] && ShortGaps(sampleStart, times)
    ensures CycleSum(CyclesNow(sampleStart), times) == Elapsed(sampleStart, times)
    ensures WithinLoss(Total(Deltas(lim, CyclesNow(sampleStart), times)), |times|, Elapsed(sampleStart, times),
                       lim.cyclesPerSecond)
  {
    Telescopes(sampleStart, times);
    DeltaSumWithin(lim, CyclesNow(sampleStart), times);
  }

  // ---- jitter_stats ----

  lemma {:induction false} SumBetween(values: seq<u32>, low: u32, high: u32)
    requires forall i :: 0 <= i < |values| ==> low <= values[i] <= high
    ensures |values| * low <= Total(values) <= |values| * high
  {
    if values != [] {
      var n := |values| - 1;
      SumBetween(values[1..], low, high);
      assert (n + 1) * low == n * low + low && (n + 1) * high == n * high + high;
    }
  }

  predicate Least(values: seq<u32>, low: nat) {
    low in values && forall i :: 0 <= i < |values| ==> low <= values[i]
  }

  predicate Greatest(values: seq<u32>, high: nat) {
    high in values && forall i :: 0 <= i < |values| ==> values[i] <= high
  }

  predicate FlooredMean(values: seq<u32>, mean: nat) {
    mean * |values| <= Total(values) < (mean + 1) * |values|
  }

  /** Minimum, floored mean and maximum of the values; zeros when there are none. */
  predicate StatsOf(values: seq<u32>, low: nat, mean: nat, high: nat) {
    && low <= mean <= high
    && if values == [] then high == 0 else Least(values, low) && FlooredMean(values, mean) && Greatest(values, high)
  }

  /** jitter_stats */
  method JitterStats(deltas: array<u32>, count: nat) returns (minUs: u32, meanUs: u32, maxUs: u32)
    requires count <= deltas.Length && count < U32_LIMIT
    ensures StatsOf(deltas[..count], minUs, meanUs, maxUs)
  {
    if count == 0 {
      return 0, 0, 0;
    }
    var sum := 0;
    minUs, maxUs := deltas[0], deltas[0];
    for i := 0 to count
      invariant minUs in deltas[..count] && forall k :: 0 <= k < i ==> minUs <= deltas[k]
      invariant maxUs in deltas[..count] && forall k :: 0 <= k < i ==> deltas[k] <= maxUs
      invariant sum == Total(deltas[..i])
    {
      if deltas[i] < minUs {
        minUs := deltas[i];
      }
      if deltas[i] > maxUs {
        maxUs := deltas[i];
      }
      TotalConcat(deltas[..i], [deltas[i]]);
      assert deltas[..i + 1] == deltas[..i] + [deltas[i]];
      sum := sum + deltas[i];
    }
    MeanIs(deltas[..count], sum, minUs, maxUs);
    meanUs := sum / count;
  }

  lemma MeanIs(values: seq<u32>, sum: nat, low: u32, high: u32)
    requires 0 < |values| < U32_LIMIT && sum == Total(values)
    requires forall i :: 0 <= i < |values| ==> low <= values[i] <= high
    ensures sum < U64_LIMIT && low <= sum / |values| <= high
    ensures sum / |values| * |values| <= sum < (sum / |values| + 1) * |values|
  {
    SumBetween(values, low, high);
    SumFitsU64(sum, |values|, high);
    MeanBetween(sum, |values|, low, high);
  }

  /** The uint64_t accumulator cannot wrap. */
  lemma SumFitsU64(sum: nat, count: nat, top: u32)
    requires sum <= count * top && count < U32_LIMIT
    ensures sum < U64_LIMIT
  {
    MulMono(count, top, U32_LIMIT);
  }

  lemma MeanBetween(sum: nat, count: nat, low: nat, high: nat)
    requires count > 0 && count * low <= sum <= count * high
    ensures low <= sum / count <= high
    ensures sum / count * count <= sum < (sum / count + 1) * count
  {
    DivideBound(low, sum, count);
    Cancel(sum / count, high, count);
  }
}
