/** The result line of a trial: what the firmware measures for it, how it is
    printed, and that the collector reads the printed fields back. */
module AebReport {
  import opened Bits
  import opened BitCounts
  import opened Bytes
  import opened HexText
  import opened PyText
  import opened AebMessage
  import opened AebUpload
  import opened AebTrial
  import opened AebJitter
  import opened AebCollector

  // ---- bit statistics ----

  /** bit_count */
  method CountOnes(raw: array<byte>, len: nat) returns (ones: nat)
    requires len <= raw.Length
    ensures ones == Direct(ByteBits, raw[..len])
  {
    ones := 0;
    for i := 0 to len
      invariant ones == Direct(ByteBits, raw[..i])
    {
      assert raw[..i + 1][..i] == raw[..i];
      ones := ones + BitCount(raw[i]);
    }
  }

  /** Neighbouring bits that differ. */
  function Transitions(bits: seq<bit>): nat {
    if |bits| < 2 then 0
    else Transitions(bits[..|bits| - 1]) + (if bits[|bits| - 2] == bits[|bits| - 1] then 0 else 1)
  }

  /** They are the positions whose bit differs from the one before. */
  lemma {:induction false} TransitionsAreCount(bits: seq<bit>)
    ensures Transitions(bits) == |ChangesIn(bits)|
  {
    if |bits| < 2 {
      assert ChangesIn(bits) == {};
    } else {
      var n := |bits| - 1;
      TransitionsAreCount(bits[..n]);
      OneMore(ChangesIn(bits[..n]), ChangesIn(bits), n, bits[n - 1] != bits[n]);
    }
  }

  /** Bit k differs from the bit before it. */
  predicate ChangesAt(bits: seq<bit>, k: nat) {
    0 < k < |bits| && bits[k - 1] != bits[k]
  }

  function ChangesIn(bits: seq<bit>): set<nat> {
    set k: nat | k < |bits| && ChangesAt(bits, k)
  }

  lemma TransitionsSnoc(bits: seq<bit>, b: bit)
    ensures Transitions(bits + [b])
         == Transitions(bits) + (if bits != [] && bits[|bits| - 1] != b then 1 else 0)
  {
    assert (bits + [b])[..|bits|] == bits;
  }

  /** The bit last seen, or -1. */
  function LastBit(bits: seq<bit>): int {
    if bits == [] then -1 else bits[|bits| - 1]
  }

  /** One bit, in the loop's own terms. */
  lemma NextBit(bits: seq<bit>, b: bit)
    ensures Transitions(bits + [b])
         == Transitions(bits) + (if LastBit(bits) >= 0 && b as int != LastBit(bits) then 1 else 0)
    ensures LastBit(bits + [b]) == b
  {
    TransitionsSnoc(bits, b);
  }

  /** The bits of a byte, from the high end. */
  ghost predicate BitsFromTop(low: seq<bit>, v: byte) {
    |low| == 8 && forall k :: 0 <= k < 8 ==> low[k] == Shr(v, 7 - k) % 2
  }

  lemma ByteFromTop(v: byte)
    ensures BitsFromTop(LowBits(v, 8), v)
  {
    forall k | 0 <= k < 8
      ensures LowBits(v, 8)[k] == Shr(v, 7 - k) % 2
    {
      LowBitsAreShifts(v, 8, k);
    }
  }

  lemma OneMoreBit(seen: seq<bit>, low: seq<bit>, k: nat)
    requires k < |low|
    ensures
      var bits, more := seen + low[..k], seen + low[..k + 1];
      && Transitions(more)
         == Transitions(bits) + (if LastBit(bits) >= 0 && low[k] as int != LastBit(bits) then 1 else 0)
      && LastBit(more) == low[k]
  {
    NextBit(seen + low[..k], low[k]);
    assert seen + low[..k + 1] == seen + low[..k] + [low[k]];
  }

  /** The eight bits of a byte behind those seen. */
  method CountInByte(v: byte, previous: int, transitions: nat, ghost seen: seq<bit>, ghost low: seq<bit>)
    returns (previous': int, transitions': nat)
    requires transitions == Transitions(seen) && previous == LastBit(seen) && BitsFromTop(low, v)
    ensures transitions' == Transitions(seen + low) && previous' == LastBit(seen + low)
  {
    previous', transitions' := previous, transitions;
    assert seen + low[..0] == seen;
    var bit := 7;
    while bit >= 0
      invariant -1 <= bit <= 7
      invariant transitions' == Transitions(seen + low[..7 - bit]) && previous' == LastBit(seen + low[..7 - bit])
    {
      OneMoreBit(seen, low, 7 - bit);
      var current := Shr(v, bit) % 2;
      if previous' >= 0 && current != previous' {
        transitions' := transitions' + 1;
      }
      previous' := current;
      bit := bit - 1;
    }
    assert seen + low[..8] == seen + low;
  }

  lemma BitsOfNext(raw: seq<byte>, i: nat)
    requires i < |raw|
    ensures BitsOf(raw[..i + 1]) == BitsOf(raw[..i]) + LowBits(raw[i], 8)
  {
    assert raw[..i + 1][..i] == raw[..i];
  }

  /** bit_transitions: bytes in order, with the previous bit carried across. */
  method CountTransitions(raw: array<byte>, len: nat) returns (transitions: nat)
    requires len <= raw.Length
    ensures transitions == Transitions(BitsOf(raw[..len]))
  {
    transitions := 0;
    var previous: int := -1;
    for i := 0 to len
      invariant transitions == Transitions(BitsOf(raw[..i])) && previous == LastBit(BitsOf(raw[..i]))
    {
      BitsOfNext(raw[..], i);
      assert raw[..][..i + 1] == raw[..i + 1] && raw[..][..i] == raw[..i];
      ByteFromTop(raw[i]);
      previous, transitions := CountInByte(raw[i], previous, transitions, BitsOf(raw[..i]), LowBits(raw[i], 8));
    }
  }

  // ---- the report ----

  /** SHA-256, and HKDF of a salt, key material and an info text. */
  datatype Hashing = Hashing(sha256: seq<byte> -> hash32, hkdf: (hash32, hash32, string) -> hash32)

  datatype Report = Report(
    trial: u32,
    idle: bool,
    nonce: nonce16,
    sampleBytes: nat,
    expected: nat,
    seen: nat,
    intervalUs: u32,
    sampleUs: nat,
    ones: nat,
    transitions: nat,
    minUs: nat,
    meanUs: nat,
    maxUs: nat,
    rawHash: hash32,
    jitterHash: hash32,
    responseHash: hash32,
    seedHash: hash32)

  function Counts(r: Report): seq<Pair> {
    [Pair("trial", Decimal(r.trial)), Pair("condition", if r.idle then "idle" else "burst"),
     Pair("nonce", Hex(r.nonce)), Pair("sample_bytes", Decimal(r.sampleBytes)),
     Pair("packets_expected", Decimal(r.expected)), Pair("packets_seen", Decimal(r.seen))]
  }

  function Measures(r: Report): seq<Pair> {
    [Pair("interval_us", Decimal(r.intervalUs)), Pair("sample_us", Decimal(r.sampleUs)),
     Pair("ones", Decimal(r.ones)), Pair("transitions", Decimal(r.transitions)),
     Pair("jitter_min_us", Decimal(r.minUs)), Pair("jitter_mean_us", Decimal(r.meanUs)),
     Pair("jitter_max_us", Decimal(r.maxUs))]
  }

  function Digests(r: Report): seq<Pair> {
    [Pair("raw_sha256", Hex(r.rawHash)), Pair("jitter_sha256", Hex(r.jitterHash)),
     Pair("response_sha256", Hex(r.responseHash)), Pair("seed_sha256", Hex(r.seedHash))]
  }

  function ReportPairs(r: Report): seq<Pair> {
    Counts(r) + Measures(r) + Digests(r)
  }

  function ReportLine(r: Report): string {
    RESULT_TAG + Printed(TokensOf(ReportPairs(r))) + "\n"
  }

  // ---- printed text ----

  /** Visible ASCII other than the equals sign. */
  predicate Visible(s: string) {
    forall i :: 0 <= i < |s| ==> 33 <= s[i] as int <= 126 && s[i] != '='
  }

  predicate VisiblePair(p: Pair) {
    p.key != "" && Visible(p.key) && Visible(p.value)
  }

  lemma {:induction false} HexIsVisible(s: seq<byte>)
    ensures Visible(Hex(s))
  {
    if s != [] {
      HexIsVisible(s[..|s| - 1]);
    }
  }

  lemma CountsVisible(r: Report)
    ensures forall k :: 0 <= k < |Counts(r)| ==> VisiblePair(Counts(r)[k])
  {
    HexIsVisible(r.nonce);
  }

  lemma MeasuresVisible(r: Report)
    ensures forall k :: 0 <= k < |Measures(r)| ==> VisiblePair(Measures(r)[k])
  {
  }

  lemma DigestsVisible(r: Report)
    ensures forall k :: 0 <= k < |Digests(r)| ==> VisiblePair(Digests(r)[k])
  {
    HexIsVisible(r.rawHash);
    HexIsVisible(r.jitterHash);
    HexIsVisible(r.responseHash);
    HexIsVisible(r.seedHash);
  }

  lemma PairsVisible(r: Report)
    ensures forall k :: 0 <= k < |ReportPairs(r)| ==> VisiblePair(ReportPairs(r)[k])
  {
    CountsVisible(r);
    MeasuresVisible(r);
    DigestsVisible(r);
  }

  lemma VisibleIsPlain(p: Pair)
    requires VisiblePair(p)
    ensures PlainPair(p) && IsAscii(TokenOf(p))
  {
  }

  lemma {:induction false} PrintedIsAscii(pairs: seq<Pair>)
    requires forall k :: 0 <= k < |pairs| ==> VisiblePair(pairs[k])
    ensures IsAscii(Printed(TokensOf(pairs)))
  {
    if pairs != [] {
      VisibleIsPlain(pairs[0]);
      PrintedIsAscii(pairs[1..]);
    }
  }

  lemma LineIsAscii(r: Report)
    ensures IsAscii(ReportLine(r))
    ensures AllPlain(ReportPairs(r))
  {
    PairsVisible(r);
    PrintedIsAscii(ReportPairs(r));
    forall k | 0 <= k < |ReportPairs(r)|
      ensures PlainPair(ReportPairs(r)[k])
    {
      VisibleIsPlain(ReportPairs(r)[k]);
    }
  }

  /** The value of a key that no later pair overrides. */
  lemma {:induction false} MapLookup(pairs: seq<Pair>, k: nat)
    requires k < |pairs| && forall j :: k < j < |pairs| ==> pairs[j].key != pairs[k].key
    ensures pairs[k].key in MapOf(pairs) && MapOf(pairs)[pairs[k].key] == pairs[k].value
  {
    if k < |pairs| - 1 {
      MapLookup(pairs[..|pairs| - 1], k);
    }
  }

  lemma CountsKeys(r: Report)
    ensures forall j :: 0 < j < |ReportPairs(r)| ==> ReportPairs(r)[j].key != "trial"
    ensures forall j :: 6 < j < |ReportPairs(r)| ==> ReportPairs(r)[j].key != "interval_us"
  {
  }

  lemma DigestKeys(r: Report)
    ensures forall j :: 13 < j < |ReportPairs(r)| ==> ReportPairs(r)[j].key != "raw_sha256"
    ensures forall j :: 14 < j < |ReportPairs(r)| ==> ReportPairs(r)[j].key != "jitter_sha256"
    ensures forall j :: 15 < j < |ReportPairs(r)| ==> ReportPairs(r)[j].key != "response_sha256"
  {
  }

  /** What the collector uses of a report. */
  lemma ReportFields(r: Report)
    ensures
      var f := MapOf(ReportPairs(r));
      && Get(f, "trial", "-1") == Decimal(r.trial) && Get(f, "interval_us", "") == Decimal(r.intervalUs)
      && Get(f, "raw_sha256", "") == Hex(r.rawHash) && Get(f, "jitter_sha256", "") == Hex(r.jitterHash)
      && Get(f, "response_sha256", "") == Hex(r.responseHash)
  {
    var p := ReportPairs(r);
    CountsKeys(r);
    DigestKeys(r);
    MapLookup(p, 0);
    MapLookup(p, 6);
    MapLookup(p, 13);
    MapLookup(p, 14);
    MapLookup(p, 15);
  }

  function ReportWire(r: Report): seq<byte> {
    LineIsAscii(r);
    TextBytes(ReportLine(r))
  }

  lemma NumbersReadBack(cfg: Config, n: nat)
    ensures cfg.ToInt(Decimal(n)) == Some(n)
  {
    DecimalParses(n);
  }

  /** The printed line is read back: as a result line of its trial, with the
      interval and the digests that were printed. */
  lemma ReportReadsBack(cfg: Config, r: Report)
    requires cfg.Sound()
    ensures cfg.ResultLineOf(ReportWire(r)) == Result(r.trial, MapOf(ReportPairs(r)))
    ensures cfg.ToInt(Decimal(r.intervalUs)) == Some(r.intervalUs)
  {
    LineIsAscii(r);
    ReportFields(r);
    DecodesText(cfg, ReportLine(r));
    NumbersReadBack(cfg, r.trial);
    NumbersReadBack(cfg, r.intervalUs);
    PrintedResultLine(cfg, ReportPairs(r), "\n", ReportWire(r));
  }

  // ---- the line fits its buffer ----

  const LINE_BUFFER := 768

  function Pow10(k: nat): nat {
    if k == 0 then 1 else 10 * Pow10(k - 1)
  }

  lemma {:induction false} DecimalLength(n: nat, k: nat)
    requires k >= 1 && n < Pow10(k)
    ensures |Decimal(n)| <= k
  {
    if n >= 10 {
      DecimalLength(n / 10, k - 1);
    }
  }

  lemma PowersOfTen()
    ensures Pow10(10) == 10_000_000_000 && Pow10(11) == 100_000_000_000
  {
    assert Pow10(5) == 100_000;
  }

  /** Numbers as the firmware can have them: 32 bits, or bit counts of a buffer. */
  predicate Bounded(r: Report) {
    && r.sampleBytes < U32_LIMIT && r.expected < U32_LIMIT && r.seen < U32_LIMIT && r.sampleUs < U32_LIMIT
    && r.minUs < U32_LIMIT && r.meanUs < U32_LIMIT && r.maxUs < U32_LIMIT
    && r.ones < 8 * U32_LIMIT && r.transitions < 8 * U32_LIMIT
  }

  lemma Short(n: nat)
    requires n < 8 * U32_LIMIT
    ensures |Decimal(n)| <= 11 && (n < U32_LIMIT ==> |Decimal(n)| <= 10)
  {
    PowersOfTen();
    DecimalLength(n, 11);
    if n < U32_LIMIT {
      DecimalLength(n, 10);
    }
  }

  lemma {:induction false} PrintedAtMost(pairs: seq<Pair>, m: nat)
    requires forall k :: 0 <= k < |pairs| ==> |pairs[k].key| + 1 + |pairs[k].value| <= m
    ensures |Printed(TokensOf(pairs))| <= |pairs| * (m + 1)
  {
    if pairs != [] {
      PrintedAtMost(pairs[1..], m);
      assert |pairs| * (m + 1) == (|pairs| - 1) * (m + 1) + (m + 1);
    }
  }

  lemma {:induction false} PrintedConcat(a: seq<Pair>, b: seq<Pair>)
    ensures Printed(TokensOf(a + b)) == Printed(TokensOf(a)) + Printed(TokensOf(b))
  {
    if a == [] {
      assert a + b == b;
    } else {
      PrintedConcat(a[1..], b);
      assert (a + b)[1..] == a[1..] + b && (a + b)[0] == a[0];
    }
  }

  lemma PrintedPair(p: Pair)
    ensures Printed(TokensOf([p])) == " " + p.key + "=" + p.value
  {
    assert TokensOf([p]) == [TokenOf(p)];
    assert Printed([TokenOf(p)][1..]) == "";
  }

  lemma PrintedNext(a: seq<Pair>, p: Pair, text: string)
    requires Printed(TokensOf(a)) == text
    ensures Printed(TokensOf(a + [p])) == text + (" " + p.key + "=" + p.value)
  {
    PrintedConcat(a, [p]);
    PrintedPair(p);
  }

  lemma CountsFit(r: Report)
    requires Bounded(r)
    ensures |Printed(TokensOf(Counts(r)))| <= 234
  {
    Short(r.trial);
    Short(r.sampleBytes);
    Short(r.expected);
    Short(r.seen);
    PrintedAtMost(Counts(r), 38);
  }

  lemma MeasuresFit(r: Report)
    requires Bounded(r)
    ensures |Printed(TokensOf(Measures(r)))| <= 182
  {
    Short(r.intervalUs);
    Short(r.sampleUs);
    Short(r.ones);
    Short(r.transitions);
    Short(r.minUs);
    Short(r.meanUs);
    Short(r.maxUs);
    PrintedAtMost(Measures(r), 25);
  }

  lemma DigestsFit(r: Report)
    requires Bounded(r)
    ensures |Printed(TokensOf(Digests(r)))| <= 324
  {
    PrintedAtMost(Digests(r), 80);
  }

  /** snprintf never cuts the line. */
  lemma LineFits(r: Report)
    requires Bounded(r)
    ensures |ReportLine(r)| < LINE_BUFFER
  {
    CountsFit(r);
    MeasuresFit(r);
    DigestsFit(r);
    PrintedConcat(Counts(r) + Measures(r), Digests(r));
    PrintedConcat(Counts(r), Measures(r));
  }

  // ---- how the report is made ----

  const SEED_INFO := "rf-actuated-entropy-v1"

  /** derive_seed, from the hash of the START header and of the response. */
  function SeedFrom(h: Hashing, start: Message, response: seq<byte>): hash32 {
    h.hkdf(h.sha256(Header(start)), h.sha256(response), SEED_INFO)
  }

  lemma {:induction false} OnesBounded(raw: seq<byte>)
    ensures Direct(ByteBits, raw) <= 8 * |raw|
  {
    if raw != [] {
      OnesBounded(raw[..|raw| - 1]);
      ByteOnes(raw[|raw| - 1]);
    }
  }

  lemma ByteOnes(b: byte)
    ensures BitCount(b) <= 8
  {
    ByteBelow(b);
    OnesBelow(b, 8);
  }

  lemma {:induction false} OnesBelow(v: nat, k: nat)
    requires v < Pow2(k)
    ensures BitCount(v) <= k
  {
    if k > 0 && v > 0 {
      OnesBelow(v / 2, k - 1);
    }
  }

  lemma {:induction false} TransitionsBounded(bits: seq<bit>)
    ensures Transitions(bits) <= |bits|
  {
    if |bits| >= 2 {
      TransitionsBounded(bits[..|bits| - 1]);
    }
  }

  /** The report is of this trial and these buffers. */
  ghost predicate Describes(lim: Limits, h: Hashing, r: Report, start: Message, raw: seq<byte>, deltas: seq<u32>) {
    && r.trial == start.trial && r.nonce == start.nonce && r.intervalUs == start.intervalUs
    && r.expected == Min(start.seqOrCount, lim.maxBursts) && r.idle == (r.expected == 0)
    && r.sampleBytes == |raw| && r.seen == |deltas|
    && r.ones == Direct(ByteBits, raw) && r.transitions == Transitions(BitsOf(raw))
    && StatsOf(deltas, r.minUs, r.meanUs, r.maxUs)
    && r.rawHash == h.sha256(raw) && r.jitterHash == h.sha256(PackLe32(deltas))
    && r.responseHash == h.sha256(ResponseInput(raw, deltas))
    && r.seedHash ==
       h.sha256(h.hkdf(h.sha256(MakeMessage(start.(payload := []))), h.sha256(raw + PackLe32(deltas)),
                       "rf-actuated-entropy-v1"))
  }

  lemma HeaderAlone(m: Message)
    ensures MakeMessage(m.(payload := [])) == Header(m)
  {
  }

  /** The part of run_trial behind the sampling. */
  method MakeReport(lim: Limits, h: Hashing, start: Message, sampleStart: nat, sampleEnd: nat,
                    raw: array<byte>, rawLen: nat, jitterUs: array<u32>, count: nat)
    returns (r: Report)
    requires lim.Valid() && rawLen <= raw.Length < U32_LIMIT && count <= jitterUs.Length < U32_LIMIT
    ensures Describes(lim, h, r, start, raw[..rawLen], jitterUs[..count]) && Bounded(r)
    ensures r.sampleUs == CyclesToUs(lim, CyclesNow(sampleStart), CyclesNow(sampleEnd))
  {
    var jitterInput := Sha256Jitter(jitterUs, count);
    var response := Sha256Response(raw, rawLen, jitterUs, count);
    var expected := Min(start.seqOrCount, lim.maxBursts);
    var minUs, meanUs, maxUs := JitterStats(jitterUs, count);
    var ones := CountOnes(raw, rawLen);
    var transitions := CountTransitions(raw, rawLen);
    OnesBounded(raw[..rawLen]);
    TransitionsBounded(BitsOf(raw[..rawLen]));
    HeaderAlone(start);
    r := Report(start.trial, expected == 0, start.nonce, rawLen, expected, count, start.intervalUs,
                CyclesToUs(lim, CyclesNow(sampleStart), CyclesNow(sampleEnd)), ones, transitions,
                minUs, meanUs, maxUs, h.sha256(raw[..rawLen]), h.sha256(jitterInput), h.sha256(response),
                h.sha256(SeedFrom(h, start, response)));
  }

  /** A report that reaches the collector of a live trial is noted: the digests
      and the interval it will use are the printed ones. */
  lemma ReportIsNoted(cfg: Config, s: State, peer: Peer, r: Report)
    requires cfg.Sound() && Live(cfg, s) && Bounded(r) && Key(peer, r.trial) in s.states
    ensures
      var n := Step(cfg, s, Datagram(peer, ReportWire(r)));
      && Live(cfg, n) && Key(peer, r.trial) in n.states
      && var t := n.states[Key(peer, r.trial)];
      && "interval_us" in t.result && t.result["interval_us"] == Decimal(r.intervalUs)
      && "raw_sha256" in t.result && t.result["raw_sha256"] == Hex(r.rawHash)
      && "jitter_sha256" in t.result && t.result["jitter_sha256"] == Hex(r.jitterHash)
      && "response_sha256" in t.result && t.result["response_sha256"] == Hex(r.responseHash)
  {
    LineFits(r);
    ReportReadsBack(cfg, r);
    assert Truncated(ReportWire(r), RECV_LIMIT) == ReportWire(r);
    NotedFields(s.states[Key(peer, r.trial)], r);
  }

  lemma NotedFields(t: Trial, r: Report)
    ensures
      var said := NoteResult(t, MapOf(ReportPairs(r))).result;
      && "interval_us" in said && said["interval_us"] == Decimal(r.intervalUs)
      && "raw_sha256" in said && said["raw_sha256"] == Hex(r.rawHash)
      && "jitter_sha256" in said && said["jitter_sha256"] == Hex(r.jitterHash)
      && "response_sha256" in said && said["response_sha256"] == Hex(r.responseHash)
  {
    var p := ReportPairs(r);
    CountsKeys(r);
    DigestKeys(r);
    MapLookup(p, 6);
    MapLookup(p, 13);
    MapLookup(p, 14);
    MapLookup(p, 15);
  }
}
