/** The device side of one trial: run_trial samples the entropy source once per
    accepted BURST and times the packets by a wrapping cycle counter. */
module AebTrial {
  import opened Bytes
  import opened AebMessage
  import opened AebUpload

  const RECV_BUF_LEN := 512

  /** Build-time limits, and the rate of the cycle counter. */
  datatype Limits = Limits(maxSampleBytes: nat, maxBursts: nat, cyclesPerSecond: nat)
  {
    /** Two static buffers in a 32-bit address space, and a counter fast enough
        for a 32-bit cycle count to give a 32-bit microsecond count. */
    predicate Valid() {
      0 < maxSampleBytes < 0x8000_0000 && maxBursts < U32_LIMIT && cyclesPerSecond >= 1_000_000
    }
  }

  /** A byte source that is read once, in order, by calls that may fail. */
  class EntropyDevice {
    const source: nat -> byte
    var pos: nat
    var calls: nat

    constructor (source: nat -> byte, calls: nat)
      ensures this.source == source && pos == 0 && this.calls == calls
    {
      this.source, pos, this.calls := source, 0, calls;
    }

    /** Bytes from..from + n of the source. */
    function Slice(from: nat, n: nat): (s: seq<byte>)
      ensures |s| == n && forall i :: 0 <= i < n ==> s[i] == source(from + i)
    {
      seq(n, (i: nat) => source(from + i))
    }

    lemma SliceConcat(from: nat, a: nat, b: nat)
      ensures Slice(from, a) + Slice(from + a, b) == Slice(from, a + b)
    {
    }

    /** entropy_get_entropy: all the bytes or an error. */
    method GetEntropy(dst: array<byte>, off: nat, n: nat) returns (ok: bool)
      requires off + n <= dst.Length
      modifies this, dst
      ensures ok <==> old(calls) > 0
      ensures ok ==> pos == old(pos) + n && calls == old(calls) - 1
      ensures ok ==> dst[off..off + n] == Slice(old(pos), n)
      ensures dst[..off] == old(dst[..off]) && dst[off + n..] == old(dst[off + n..])
      ensures !ok ==> pos == old(pos) && calls == 0
    {
      ok := calls > 0;
      if ok {
        forall i | 0 <= i < n {
          dst[off + i] := source(pos + i);
        }
        pos, calls := pos + n, calls - 1;
      }
    }
  }

  /** How many reads of at most 64 bytes a length takes. */
  function Reads(len: nat): (r: nat)
    ensures len <= 64 * r && (r > 0 ==> 64 * (r - 1) < len)
  {
    (len + 63) / 64
  }

  lemma ReadsNext(len: nat, off: nat, rounds: nat)
    requires off == Min(64 * rounds, len)
    ensures off < len ==> rounds < Reads(len) && Min(off + 64, len) == Min(64 * (rounds + 1), len)
    ensures off >= len && (rounds == 0 || 64 * (rounds - 1) < len) ==> rounds == Reads(len)
  {
  }

  /** One read of entropy_read_exact, behind the `off` bytes already in place. */
  method ReadBlock(dev: EntropyDevice, dst: array<byte>, base: nat, off: nat, chunk: nat, ghost start: nat)
    returns (ok: bool)
    requires base + off + chunk <= dst.Length
    requires dst[base..base + off] == dev.Slice(start, off) && dev.pos == start + off
    modifies dev, dst
    ensures ok <==> old(dev.calls) > 0
    ensures ok ==> dst[base..base + off + chunk] == dev.Slice(start, off + chunk)
    ensures ok ==> dev.pos == start + off + chunk && dev.calls == old(dev.calls) - 1
    ensures forall i :: 0 <= i < base || base + off + chunk <= i < dst.Length ==> dst[i] == old(dst[i])
  {
    ghost var was := dst[..];
    ok := dev.GetEntropy(dst, base + off, chunk);
    assert forall i :: 0 <= i < base + off ==> dst[i] == dst[..base + off][i] == was[..base + off][i] == was[i];
    assert forall i :: base + off + chunk <= i < dst.Length ==>
        dst[i] == dst[base + off + chunk..][i - (base + off + chunk)]
               == was[base + off + chunk..][i - (base + off + chunk)];
    if ok {
      assert dst[base..base + off] == was[base..base + off];
      dev.SliceConcat(start, off, chunk);
      assert dst[base..base + off + chunk] == dst[base..base + off] + dst[base + off..base + off + chunk];
    }
  }

  /** entropy_read_exact: reads of at most 64 bytes. */
  method EntropyReadExact(dev: EntropyDevice, dst: array<byte>, base: nat, len: nat) returns (ok: bool)
    requires base + len <= dst.Length
    modifies dev, dst
    ensures ok ==> dst[base..base + len] == dev.Slice(old(dev.pos), len) && dev.pos == old(dev.pos) + len
    ensures ok <==> Reads(len) <= old(dev.calls)
    ensures ok ==> dev.calls == old(dev.calls) - Reads(len)
    ensures forall i :: 0 <= i < base || base + len <= i < dst.Length ==> dst[i] == old(dst[i])
  {
    var off := 0;
    ghost var rounds := 0;
    while off < len
      invariant off == Min(64 * rounds, len) && rounds <= old(dev.calls)
      invariant rounds == 0 || 64 * (rounds - 1) < len
      invariant dev.pos == old(dev.pos) + off && dev.calls == old(dev.calls) - rounds
      invariant dst[base..base + off] == dev.Slice(old(dev.pos), off)
      invariant forall i :: 0 <= i < base || base + len <= i < dst.Length ==> dst[i] == old(dst[i])
      decreases len - off
    {
      var chunk := len - off;
      if chunk > 64 {
        chunk := 64;
      }
      ReadsNext(len, off, rounds);
      ok := ReadBlock(dev, dst, base, off, chunk, old(dev.pos));
      if !ok {
        return;
      }
      off, rounds := off + chunk, rounds + 1;
    }
    ReadsNext(len, off, rounds);
    ok := true;
  }

  /** One iteration of the sampling loop: nothing readable, a datagram that
      counts, or one that does not. `at` is the true cycle count then. */
  datatype Arrival = Nothing | Packet(data: seq<byte>, at: nat)

  function Requested(lim: Limits, start: Message): nat {
    if start.sampleBytes == 0 || start.sampleBytes > lim.maxSampleBytes then lim.maxSampleBytes else start.sampleBytes
  }

  /** A BURST of this trial. */
  predicate Matches(trial: u32, a: Arrival) {
    a.Packet?
    && var m := ParseMessage(Truncated(a.data, RECV_BUF_LEN));
    m.Some? && m.value.kind == BURST && m.value.trial == trial
  }

  /** The times of the packets accepted in the first n iterations; an iteration
      with nothing to read ends the loop, a foreign packet uses one up. */
  function Accepted(trial: u32, arrivals: seq<Arrival>, n: nat): seq<nat> {
    if n == 0 || arrivals == [] || arrivals[0].Nothing? then []
    else (if Matches(trial, arrivals[0]) then [arrivals[0].at] else []) + Accepted(trial, arrivals[1..], n - 1)
  }

  /** Exactly the BURST messages of the trial match, whatever their payload. */
  lemma MatchesIff(trial: u32, m: Message, at: nat)
    ensures Matches(trial, Packet(MakeMessage(m), at)) <==> m.kind == 2 && m.trial == trial
  {
    ParseOfMake(m, RECV_BUF_LEN);
  }

  /** And nothing that does not parse. */
  lemma GarbageIsForeign(trial: u32, data: seq<byte>, at: nat)
    requires ParseMessage(Truncated(data, RECV_BUF_LEN)).None?
    ensures !Matches(trial, Packet(data, at))
  {
  }

  /** The loop looks at the first m arrivals: as many as are expected, up to the
      first turn that finds nothing. */
  ghost predicate LooksAt(arrivals: seq<Arrival>, n: nat, m: nat) {
    && m <= n && m <= |arrivals| && (forall i :: 0 <= i < m ==> arrivals[i].Packet?)
    && (m < n && m < |arrivals| ==> arrivals[m].Nothing?)
  }

  /** The hits among the first i. */
  ghost function Before(hits: seq<bool>, i: nat): set<nat>
    requires i <= |hits|
  {
    set k: nat | k < i && hits[k]
  }

  lemma BeforeStep(hits: seq<bool>, i: nat)
    requires i < |hits|
    ensures |Before(hits, i + 1)| == |Before(hits, i)| + if hits[i] then 1 else 0
  {
    assert Before(hits, i + 1) == Before(hits, i) + if hits[i] then {i} else {};
  }

  lemma {:induction false} BeforeShift(hits: seq<bool>, i: nat)
    requires 0 < i <= |hits|
    ensures |Before(hits, i)| == |Before(hits[1..], i - 1)| + if hits[0] then 1 else 0
    decreases i
  {
    if i == 1 {
      assert Before(hits[1..], 0) == {};
      assert Before(hits, 0) == {};
      BeforeStep(hits, 0);
    } else {
      BeforeShift(hits, i - 1);
      BeforeStep(hits, i - 1);
      BeforeStep(hits[1..], i - 2);
    }
  }

  /** Times of the hits. */
  function Kept(hits: seq<bool>, times: seq<nat>): seq<nat>
    requires |hits| == |times|
  {
    if hits == [] then [] else (if hits[0] then [times[0]] else []) + Kept(hits[1..], times[1..])
  }

  lemma {:induction false} KeptCount(hits: seq<bool>, times: seq<nat>)
    requires |hits| == |times|
    ensures |Kept(hits, times)| == |Before(hits, |hits|)|
  {
    if hits == [] {
      assert Before(hits, 0) == {};
    } else {
      KeptCount(hits[1..], times[1..]);
      BeforeShift(hits, |hits|);
    }
  }

  lemma {:induction false} KeptAt(hits: seq<bool>, times: seq<nat>, i: nat)
    requires |hits| == |times| && i < |hits| && hits[i]
    ensures |Before(hits, i)| < |Kept(hits, times)| && Kept(hits, times)[|Before(hits, i)|] == times[i]
    decreases i
  {
    if i == 0 {
      assert Before(hits, 0) == {};
    } else {
      assert hits[1..][i - 1] == hits[i];
      KeptAt(hits[1..], times[1..], i - 1);
      BeforeShift(hits, i);
    }
  }

  /** These lists say which of the first m arrivals match, and when they came. */
  ghost predicate Sorts(trial: u32, arrivals: seq<Arrival>, m: nat, hits: seq<bool>, times: seq<nat>) {
    && m <= |arrivals| && |hits| == |times| == m
    && forall i :: 0 <= i < m ==>
         arrivals[i].Packet? && hits[i] == Matches(trial, arrivals[i]) && times[i] == arrivals[i].at
  }

  lemma SortsRest(trial: u32, arrivals: seq<Arrival>, m: nat, hits: seq<bool>, times: seq<nat>)
    requires Sorts(trial, arrivals, m, hits, times) && m > 0
    ensures Sorts(trial, arrivals[1..], m - 1, hits[1..], times[1..])
    ensures arrivals[0].Packet? && hits[0] == Matches(trial, arrivals[0]) && times[0] == arrivals[0].at
  {
    assert forall i :: 0 <= i < m - 1 ==> arrivals[1..][i] == arrivals[i + 1];
  }

  lemma {:induction false} AcceptedAreKept(trial: u32, arrivals: seq<Arrival>, n: nat, m: nat, hits: seq<bool>,
                                           times: seq<nat>)
    requires LooksAt(arrivals, n, m) && Sorts(trial, arrivals, m, hits, times)
    ensures Accepted(trial, arrivals, n) == Kept(hits, times)
    decreases m
  {
    if m > 0 {
      SortsRest(trial, arrivals, m, hits, times);
      LooksAtRest(arrivals, n, m);
      AcceptedAreKept(trial, arrivals[1..], n - 1, m - 1, hits[1..], times[1..]);
    }
  }

  lemma LooksAtRest(arrivals: seq<Arrival>, n: nat, m: nat)
    requires LooksAt(arrivals, n, m) && m > 0
    ensures LooksAt(arrivals[1..], n - 1, m - 1) && arrivals[0].Packet?
  {
    assert forall i :: 0 <= i < m - 1 ==> arrivals[1..][i] == arrivals[i + 1];
  }

  /** The accepted times are those of the matching arrivals that the loop looks
      at, in order: as many, and each behind those of the ones before it. A foreign
      packet uses up a turn and adds nothing. */
  lemma AcceptedAre(trial: u32, arrivals: seq<Arrival>, n: nat, m: nat, hits: seq<bool>, times: seq<nat>)
    requires LooksAt(arrivals, n, m) && Sorts(trial, arrivals, m, hits, times)
    ensures |Accepted(trial, arrivals, n)| == |Before(hits, m)|
    ensures forall i :: 0 <= i < m && hits[i] ==>
      var k := |Before(hits, i)|;
      k < |Accepted(trial, arrivals, n)| && Accepted(trial, arrivals, n)[k] == times[i]
  {
    AcceptedAreKept(trial, arrivals, n, m, hits, times);
    KeptCount(hits, times);
    forall i | 0 <= i < m && hits[i]
      ensures |Before(hits, i)| < |Kept(hits, times)| && Kept(hits, times)[|Before(hits, i)|] == times[i]
    {
      KeptAt(hits, times, i);
    }
  }

  // ---- the clock ----

  /** k_cycle_get_32: the low 32 bits of the true count. */
  function CyclesNow(at: nat): u32 {
    at % U32_LIMIT
  }

  /** cycles_to_us: a wrapped 32-bit difference, in whole microseconds. */
  function CyclesToUs(lim: Limits, start: u32, end: u32): (us: u32)
    requires lim.Valid()
  {
    var cycles := (end - start) % U32_LIMIT;
    assert cycles * 1_000_000 <= cycles * lim.cyclesPerSecond;
    UsAtMostCycles(cycles, lim.cyclesPerSecond);
    cycles * 1_000_000 / lim.cyclesPerSecond
  }

  lemma Cancel(a: nat, b: nat, rate: nat)
    requires rate > 0 && a * rate <= b * rate
    ensures a <= b
  {
  }

  lemma UsAtMostCycles(cycles: nat, rate: nat)
    requires rate >= 1_000_000
    ensures 0 <= cycles * 1_000_000 / rate <= cycles
  {
    var q := cycles * 1_000_000 / rate;
    assert q * rate <= cycles * 1_000_000 <= cycles * rate;
    Cancel(q, cycles, rate);
  }

  /** For true times less than a wrap apart: the elapsed microseconds, rounded
      down. */
  lemma ElapsedUs(lim: Limits, from: nat, at: nat)
    requires lim.Valid() && from <= at < from + U32_LIMIT
    ensures
      var us := CyclesToUs(lim, CyclesNow(from), CyclesNow(at));
      us * lim.cyclesPerSecond <= (at - from) * 1_000_000 < (us + 1) * lim.cyclesPerSecond
  {
    WrappedDifference(from, at);
    FloorIs((at - from) * 1_000_000, lim.cyclesPerSecond);
  }

  lemma WrappedDifference(from: nat, at: nat)
    requires from <= at < from + U32_LIMIT
    ensures (at % U32_LIMIT - from % U32_LIMIT) % U32_LIMIT == at - from
  {
  }

  lemma FloorIs(a: nat, rate: nat)
    requires rate > 0
    ensures a / rate * rate <= a < (a / rate + 1) * rate
  {
  }

  /** The deltas stored for packets at the given times, measured from prev. */
  function Deltas(lim: Limits, prev: u32, times: seq<nat>): (d: seq<u32>)
    requires lim.Valid()
    ensures |d| == |times|
    decreases |times|
  {
    if times == [] then []
    else [CyclesToUs(lim, prev, CyclesNow(times[0]))] + Deltas(lim, CyclesNow(times[0]), times[1..])
  }

  /** prev_cycle after the given packets. */
  function LastCycle(prev: u32, times: seq<nat>): u32 {
    if times == [] then prev else CyclesNow(times[|times| - 1])
  }

  lemma {:induction false} DeltasAppend(lim: Limits, prev: u32, times: seq<nat>, t: nat)
    requires lim.Valid()
    ensures Deltas(lim, prev, times + [t])
         == Deltas(lim, prev, times)
            + [CyclesToUs(lim, LastCycle(prev, times), CyclesNow(t))]
    decreases |times|
  {
    if times == [] {
      assert [t][1..] == [];
    } else {
      assert (times + [t])[1..] == times[1..] + [t];
      DeltasAppend(lim, CyclesNow(times[0]), times[1..], t);
    }
  }

  /** jitter_us holds the deltas of the packets accepted so far. */
  ghost predicate Recorded(lim: Limits, jitterUs: array<u32>, first: u32, times: seq<nat>)
    requires lim.Valid()
    reads jitterUs
  {
    |times| <= jitterUs.Length && jitterUs[..|times|] == Deltas(lim, first, times)
  }

  /** raw_buf starts with the bytes read since source position `from`. */
  ghost predicate Drawn(dev: EntropyDevice, rawBuf: array<byte>, from: nat, used: nat)
    reads dev, rawBuf
  {
    used <= rawBuf.Length && rawBuf[..used] == dev.Slice(from, used) && dev.pos == from + used
  }

  /** jitter_us[packets_seen] = cycles_to_us(prev_cycle, now) */
  method RecordDelta(lim: Limits, jitterUs: array<u32>, seen: nat, prev: u32, now: u32, ghost first: u32,
                     ghost times: seq<nat>, ghost at: nat)
    requires lim.Valid() && Recorded(lim, jitterUs, first, times) && seen == |times| < jitterUs.Length
    requires prev == LastCycle(first, times) && now == CyclesNow(at)
    modifies jitterUs
    ensures Recorded(lim, jitterUs, first, times + [at])
  {
    DeltasAppend(lim, first, times, at);
    jitterUs[seen] := CyclesToUs(lim, prev, now);
    assert jitterUs[..seen + 1] == jitterUs[..seen] + [jitterUs[seen]];
  }

  lemma ReadsAtMost(len: nat)
    ensures Reads(len) <= len
  {
  }

  /** Bytes used up to `now`, read behind those used so far. */
  method ReadUpTo(dev: EntropyDevice, rawBuf: array<byte>, used: nat, now: nat, ghost from: nat) returns (ok: bool)
    requires used <= now <= rawBuf.Length && Drawn(dev, rawBuf, from, used)
    modifies dev, rawBuf
    ensures ok ==> Drawn(dev, rawBuf, from, now)
    ensures ok ==> dev.calls + (now - used) >= old(dev.calls)
    ensures old(dev.calls) >= now - used ==> ok
  {
    ghost var was := rawBuf[..used];
    ReadsAtMost(now - used);
    ok := EntropyReadExact(dev, rawBuf, used, now - used);
    if ok {
      assert rawBuf[..used] == was;
      assert rawBuf[..now] == rawBuf[..used] + rawBuf[used..used + (now - used)];
      dev.SliceConcat(from, used, now - used);
    }
  }

  /** One packet's slice of the source: per_packet bytes, or what the request
      still lacks. */
  method TakeSlice(dev: EntropyDevice, rawBuf: array<byte>, used: nat, requested: nat, perPacket: nat, ghost from: nat)
    returns (ok: bool, now: nat)
    requires used <= requested <= rawBuf.Length && Drawn(dev, rawBuf, from, used)
    modifies dev, rawBuf
    ensures ok ==> now == Min(requested, used + perPacket) && Drawn(dev, rawBuf, from, now)
    ensures ok ==> dev.calls + (now - used) >= old(dev.calls)
    ensures old(dev.calls) >= requested - used ==> ok
  {
    var toRead := perPacket;
    if used + toRead > requested {
      toRead := requested - used;
    }
    ok, now := true, used + toRead;
    if toRead > 0 {
      ok := ReadUpTo(dev, rawBuf, used, now, from);
    }
  }

  /** What n packets have bought: per_packet bytes each, never beyond the request. */
  function Share(requested: nat, perPacket: nat, n: nat): nat {
    if n == 0 then 0 else Min(requested, Share(requested, perPacket, n - 1) + perPacket)
  }

  /** In closed form: the smaller of the request and n slices. */
  lemma {:induction false} ShareIs(requested: nat, perPacket: nat, n: nat)
    ensures Share(requested, perPacket, n) == Min(requested, n * perPacket)
  {
    if n > 0 {
      ShareIs(requested, perPacket, n - 1);
      assert n * perPacket == (n - 1) * perPacket + perPacket;
    }
  }

  lemma AcceptedNext(trial: u32, arrivals: seq<Arrival>, i: nat, n: nat, before: seq<nat>, after: seq<nat>)
    requires i < |arrivals| && i < n && arrivals[i].Packet?
    requires after == if Matches(trial, arrivals[i]) then before + [arrivals[i].at] else before
    ensures before + Accepted(trial, arrivals[i..], n - i) == after + Accepted(trial, arrivals[i + 1..], n - (i + 1))
  {
    assert arrivals[i..][1..] == arrivals[i + 1..];
  }

  /** parse_msg and the type and trial tests of the burst loop. */
  method IsBurstOf(trial: u32, data: seq<byte>, ghost at: nat) returns (yes: bool)
    ensures yes <==> Matches(trial, Packet(data, at))
  {
    var parsed := ParseMessage(Truncated(data, RECV_BUF_LEN));
    yes := parsed.Some? && parsed.value.kind == BURST && parsed.value.trial == trial;
  }

  /** One readable datagram in the burst loop: a matching one is timed and buys
      a slice of the source, any other changes nothing. */
  method OnPacket(lim: Limits, dev: EntropyDevice, trial: u32, a: Arrival, rawBuf: array<byte>, jitterUs: array<u32>,
                  requested: nat, perPacket: nat, seen: nat, used: nat, prev: u32,
                  ghost from: nat, ghost first: u32, ghost times: seq<nat>)
    returns (ok: bool, seen': nat, used': nat, prev': u32, ghost times': seq<nat>)
    requires lim.Valid() && a.Packet? && requested <= rawBuf.Length && seen == |times| < jitterUs.Length
    requires Recorded(lim, jitterUs, first, times) && prev == LastCycle(first, times)
    requires Drawn(dev, rawBuf, from, used) && used == Share(requested, perPacket, seen)
    modifies dev, rawBuf, jitterUs
    ensures times' == if Matches(trial, a) then times + [a.at] else times
    ensures ok ==> seen' == |times'| && prev' == LastCycle(first, times') && Recorded(lim, jitterUs, first, times')
    ensures ok ==> used' == Share(requested, perPacket, seen') && Drawn(dev, rawBuf, from, used')
    ensures ok ==> dev.calls + used' >= old(dev.calls) + used
    ensures old(dev.calls) >= requested - used ==> ok
  {
    ok, seen', used', prev', times' := true, seen, used, prev, times;
    var matches := IsBurstOf(trial, a.data, a.at);
    if !matches {
      return;
    }
    times' := times + [a.at];
    var now := CyclesNow(a.at);
    RecordDelta(lim, jitterUs, seen, prev, now, first, times, a.at);
    prev' := now;
    ok, used' := TakeSlice(dev, rawBuf, used, requested, perPacket, from);
    seen' := seen + 1;
  }

  /** The burst loop. After every iteration sample_used is the smaller of the
      request and packets_seen slices. */
  method SampleLoop(lim: Limits, dev: EntropyDevice, trial: u32, sampleStart: nat, arrivals: seq<Arrival>,
                    rawBuf: array<byte>, jitterUs: array<u32>, requested: nat, expected: nat, perPacket: nat)
    returns (ok: bool, packetsSeen: nat, sampleUsed: nat)
    requires lim.Valid() && requested <= rawBuf.Length && expected <= jitterUs.Length
    modifies dev, rawBuf, jitterUs
    ensures ok ==> packetsSeen == |Accepted(trial, arrivals, expected)| <= expected
    ensures ok ==> Recorded(lim, jitterUs, CyclesNow(sampleStart), Accepted(trial, arrivals, expected))
    ensures ok ==> sampleUsed == Share(requested, perPacket, packetsSeen)
    ensures ok ==> sampleUsed == Min(requested, packetsSeen * perPacket)
    ensures ok ==> Drawn(dev, rawBuf, old(dev.pos), sampleUsed)
    ensures ok ==> dev.calls + sampleUsed >= old(dev.calls)
    ensures old(dev.calls) >= requested ==> ok
  {
    ghost var times: seq<nat>, first, from := [], CyclesNow(sampleStart), dev.pos;
    packetsSeen, sampleUsed := 0, 0;
    var prev := CyclesNow(sampleStart);
    var i := 0;
    while i < expected
      invariant i <= expected && i <= |arrivals| && packetsSeen == |times| <= i
      invariant Accepted(trial, arrivals, expected) == times + Accepted(trial, arrivals[i..], expected - i)
      invariant prev == LastCycle(first, times) && Recorded(lim, jitterUs, first, times)
      invariant sampleUsed == Share(requested, perPacket, packetsSeen) && Drawn(dev, rawBuf, from, sampleUsed)
      invariant dev.calls + sampleUsed >= old(dev.calls)
    {
      if i >= |arrivals| || arrivals[i].Nothing? {
        break;
      }
      ghost var before := times;
      ok, packetsSeen, sampleUsed, prev, times :=
        OnPacket(lim, dev, trial, arrivals[i], rawBuf, jitterUs, requested, perPacket, packetsSeen, sampleUsed, prev,
                 from, first, times);
      if !ok {
        return;
      }
      AcceptedNext(trial, arrivals, i, expected, before, times);
      i := i + 1;
    }
    assert Accepted(trial, arrivals[i..], expected - i) == [];
    assert Accepted(trial, arrivals, expected) == times;
    ShareIs(requested, perPacket, packetsSeen);
    ok := true;
  }

  /** The bytes one packet buys: an equal share, but at least one. */
  function PerPacket(requested: nat, expected: nat): (n: nat)
    requires expected > 0
    ensures requested < expected ==> n == 1
    ensures requested >= expected ==> n * expected <= requested < (n + 1) * expected
  {
    FloorIs(requested, expected);
    if requested / expected == 0 then 1 else requested / expected
  }

  /** Both sampling branches of run_trial: one read when no burst is expected,
      else the burst loop and a read of what it left over. */
  method Sample(lim: Limits, dev: EntropyDevice, trial: u32, sampleStart: nat, arrivals: seq<Arrival>,
                rawBuf: array<byte>, jitterUs: array<u32>, requested: nat, expected: nat)
    returns (ok: bool, packetsSeen: nat)
    requires lim.Valid() && requested <= rawBuf.Length && expected <= jitterUs.Length
    modifies dev, rawBuf, jitterUs
    ensures ok ==> packetsSeen == |Accepted(trial, arrivals, expected)| <= expected
    ensures ok ==> Recorded(lim, jitterUs, CyclesNow(sampleStart), Accepted(trial, arrivals, expected))
    ensures ok ==> Drawn(dev, rawBuf, old(dev.pos), requested)
    ensures old(dev.calls) >= requested ==> ok
  {
    ghost var from := dev.pos;
    if expected == 0 {
      packetsSeen := 0;
      ok := ReadUpTo(dev, rawBuf, 0, requested, from);
      return;
    }
    var perPacket := PerPacket(requested, expected);
    var sampleUsed;
    ok, packetsSeen, sampleUsed :=
      SampleLoop(lim, dev, trial, sampleStart, arrivals, rawBuf, jitterUs, requested, expected, perPacket);
    if ok && sampleUsed < requested {
      ok := ReadUpTo(dev, rawBuf, sampleUsed, requested, from);
    }
  }

  /** What a trial leaves behind when it succeeds. */
  datatype TrialResult = Failed | Sampled(rawLen: nat, jitterCount: nat)

  /** run_trial up to the hashing of the two buffers, with the results of the
      transcript hash and of the later hashes given. On success raw_buf holds the
      next `requested` bytes of the source, each read once and in order, whatever
      mix of matching, foreign, malformed and missing packets arrived; and
      jitter_us holds one delta per accepted packet. */
  method RunTrial(lim: Limits, dev: EntropyDevice, start: Message, sampleStart: nat, arrivals: seq<Arrival>,
                  transcriptOk: bool, hashesOk: bool, rawBuf: array<byte>, jitterUs: array<u32>)
    returns (r: TrialResult)
    requires lim.Valid() && rawBuf.Length == lim.maxSampleBytes && jitterUs.Length == lim.maxBursts
    modifies dev, rawBuf, jitterUs
    ensures r.Sampled? ==>
      && r.rawLen == Requested(lim, start) && 0 < r.rawLen <= rawBuf.Length
      && rawBuf[..r.rawLen] == dev.Slice(old(dev.pos), r.rawLen) && dev.pos == old(dev.pos) + r.rawLen
    ensures r.Sampled? ==>
      var times := Accepted(start.trial, arrivals, Min(start.seqOrCount, lim.maxBursts));
      && r.jitterCount == |times| <= Min(start.seqOrCount, lim.maxBursts) <= lim.maxBursts
      && jitterUs[..r.jitterCount] == Deltas(lim, CyclesNow(sampleStart), times)
    ensures r.Sampled? ==>
      r.rawLen == if 0 < start.sampleBytes <= lim.maxSampleBytes then start.sampleBytes else lim.maxSampleBytes
    ensures r.Sampled? ==> transcriptOk && hashesOk
    ensures
      var requested := if 0 < start.sampleBytes <= lim.maxSampleBytes then start.sampleBytes else lim.maxSampleBytes;
      old(dev.calls) >= requested && transcriptOk && hashesOk ==> r.Sampled?
  {
    var requested, expected := start.sampleBytes, start.seqOrCount;
    if requested == 0 || requested > lim.maxSampleBytes {
      requested := lim.maxSampleBytes;
    }
    if expected > lim.maxBursts {
      expected := lim.maxBursts;
    }
    Zero(rawBuf, requested);
    forall i | 0 <= i < jitterUs.Length {
      jitterUs[i] := 0;
    }
    if !transcriptOk {
      return Failed;
    }
    var ok, packetsSeen := Sample(lim, dev, start.trial, sampleStart, arrivals, rawBuf, jitterUs, requested, expected);
    if !ok || !hashesOk {
      return Failed;
    }
    r := Sampled(requested, packetsSeen);
  }

  lemma ResponseGrows(raw: seq<byte>, deltas: seq<u32>, v: u32)
    ensures raw + PackLe32(deltas + [v]) == raw + PackLe32(deltas) + Le(4, v)
  {
    PackConcat(deltas, [v]);
    assert PackLe32([v]) == Le(4, v) + PackLe32([]) == Le(4, v);
    Associate(raw, PackLe32(deltas), Le(4, v));
  }

  /** The update loop of both hashes: each delta as four little-endian bytes. */
  method FeedDeltas(fed: seq<byte>, deltas: array<u32>, count: nat) returns (input: seq<byte>)
    requires count <= deltas.Length
    ensures input == fed + PackLe32(deltas[..count])
  {
    ghost var d := deltas[..count];
    var le := new byte[4];
    input := fed;
    assert input == fed + PackLe32(d[..0]);
    for i := 0 to count
      invariant fresh(le) && deltas[..count] == d
      invariant input == fed + PackLe32(d[..i])
    {
      PutLe32(le, 0, deltas[i]);
      ResponseGrows(fed, d[..i], d[i]);
      assert d[..i + 1] == d[..i] + [d[i]];
      assert le[..] == le[..4];
      input := input + le[..];
    }
    assert d[..count] == d;
  }

  /** sha256_jitter, as the bytes it feeds to the hash. */
  method Sha256Jitter(deltas: array<u32>, count: nat) returns (input: seq<byte>)
    requires count <= deltas.Length
    ensures input == PackLe32(deltas[..count])
  {
    input := FeedDeltas([], deltas, count);
  }

  /** sha256_response, as the bytes it feeds to the hash. */
  method Sha256Response(raw: array<byte>, rawLen: nat, deltas: array<u32>, count: nat) returns (input: seq<byte>)
    requires rawLen <= raw.Length && count <= deltas.Length
    ensures input == ResponseInput(raw[..rawLen], deltas[..count])
  {
    input := FeedDeltas(raw[..rawLen], deltas, count);
  }
}
