/** The collector as a state machine over received datagrams: the specification
    that the class in AebCollectorLoop is proved against. */
module AebCollector {
  import opened Bytes
  import opened AebMessage
  import opened PyText

  const RECV_LIMIT := 4096

  /** What a UDP datagram over IPv4 can carry. */
  const SEND_LIMIT := 65507

  /** time.sleep raises below zero, and where the nanoseconds leave 64 bits. */
  const SLEEP_LIMIT_MS := 9_223_372_036_854

  datatype Peer = Peer(host: string, port: nat)

  /** The demultiplexing key. The trial is an int because result lines are text. */
  datatype Key = Key(peer: Peer, trial: int)

  /** What parse_result_line and the int() of its trial field make of a datagram. */
  datatype ResultLine = NotResult | BadTrial | Result(trial: int, fields: map<string, string>)

  const RESULT_TAG := "[AEB_RESULT]"

  /** The command line, the random choices of the stimulus by capture id and
      burst, and three library functions: UTF-8 decoding with replacement,
      int() of text that is not ASCII, and the hexadecimal SHA-256. */
  datatype Config = Config(
    target: int,
    bursts: Option<int>,
    intervalUs: Option<int>,
    sampleBytes: Option<int>,
    fixedNonce: Option<nonce16>,
    startDelayMs: int,
    offset: (nat, nat) -> int,
    payload: (nat, nat) -> seq<byte>,
    decode: seq<byte> -> string,
    foreignInt: string -> Option<int>,
    sha256: seq<byte> -> string)
  {
    /** UTF-8 decoding keeps ASCII: the first character, and whole ASCII data. */
    ghost predicate Sound() {
      && (forall data: seq<byte> :: data != [] && data[0] < 128 ==>
            decode(data) != "" && decode(data)[0] as int == data[0])
      && (forall data: seq<byte> :: AllAscii(data) ==> decode(data) == Chars(data))
    }

    /** time.sleep takes the start delay. */
    predicate DelayFits() {
      0 <= startDelayMs <= SLEEP_LIMIT_MS
    }

    /** int() */
    function ToInt(s: string): Option<int> {
      if IsAscii(s) then AsciiInt(s) else foreignInt(s)
    }

    /** parse_result_line and int(result.get("trial", "-1")). */
    function ResultLineOf(data: seq<byte>): ResultLine {
      var text := Strip(decode(data));
      if !StartsWith(text, RESULT_TAG) then NotResult
      else
        var fields := LineFields(text);
        match ToInt(Get(fields, "trial", "-1"))
        case None => BadTrial
        case Some(trial) => Result(trial, fields)
    }
  }

  lemma {:induction false} RStripKeepsFirst(s: string)
    requires s != "" && !IsSpace(s[0])
    ensures RStrip(s) != "" && RStrip(s)[0] == s[0]
  {
    if IsSpace(s[|s| - 1]) {
      RStripKeepsFirst(s[..|s| - 1]);
    }
  }

  /** A datagram that starts with an ASCII character other than a blank or a
      bracket is no result line. */
  lemma NoResultLine(cfg: Config, data: seq<byte>)
    requires cfg.Sound() && data != [] && data[0] == 0x41
    ensures cfg.ResultLineOf(data) == NotResult
  {
    RStripKeepsFirst(cfg.decode(data));
  }

  /** A printed result line is read as its trial and its fields. */
  lemma PrintedResultLine(cfg: Config, pairs: seq<Pair>, blanks: string, data: seq<byte>)
    requires AllPlain(pairs)
    requires forall i :: 0 <= i < |blanks| ==> IsSpace(blanks[i])
    requires cfg.decode(data) == RESULT_TAG + Printed(TokensOf(pairs)) + blanks
    ensures cfg.ResultLineOf(data) ==
      match cfg.ToInt(Get(MapOf(pairs), "trial", "-1"))
      case None => BadTrial
      case Some(trial) => Result(trial, MapOf(pairs))
  {
    TagIsPlain();
    StripPrinted(RESULT_TAG, pairs, blanks);
    FieldsOfPrinted(RESULT_TAG, pairs);
    StartsWithItself(RESULT_TAG, Printed(TokensOf(pairs)));
  }

  lemma DecodesText(cfg: Config, s: string)
    requires cfg.Sound() && IsAscii(s)
    ensures cfg.decode(TextBytes(s)) == s
  {
    assert Chars(TextBytes(s)) == s;
  }

  lemma TagIsPlain()
    ensures PlainToken(RESULT_TAG)
  {
  }

  datatype Trial = Trial(
    captureId: nat,
    helloNonce: nonce16,
    startNonce: nonce16,
    bursts: u32,
    intervalUs: u32,
    sampleBytes: u32,
    expected: Option<u32>,
    rawLen: Option<u32>,
    raw: map<u32, seq<byte>>,
    jitter: map<u32, seq<byte>>,
    result: map<string, string>)

  /** A digest column and its match column; None is the empty text. */
  datatype Digest = Digest(hex: string, matches: Option<bool>)

  /** One CSV row, with the contents of the files it names. The columns that copy
      the result line, or the interval asked for, are looked up in `reported`
      and `askedUs`. */
  datatype Row = Row(
    captureId: nat,
    key: Key,
    complete: bool,
    raw: seq<byte>,
    partial: seq<byte>,
    expected: u32,
    chunksSeen: nat,
    missing: seq<u32>,
    jitters: seq<u32>,
    intervalUs: int,
    delta: seq<byte>,
    residual: seq<byte>,
    response: seq<byte>,
    rawDigest: Digest,
    jitterDigest: Digest,
    responseDigest: Digest,
    reported: map<string, string>,
    askedUs: u32,
    helloNonce: nonce16,
    startNonce: nonce16)

  /** Crashed: an exception left the receive loop; the bytes are what the trial
      being finalized had already appended to the raw aggregate. */
  datatype Status = Running | Stopped | Crashed(appended: seq<byte>)

  /** A datagram that the collector sends. */
  datatype Sending = Sending(peer: Peer, wire: seq<byte>)

  datatype State = State(
    states: map<Key, Trial>,
    completed: nat,
    counter: nat,
    sent: seq<Sending>,
    rawAll: seq<byte>,
    deltaAll: seq<byte>,
    residualAll: seq<byte>,
    jointAll: seq<byte>,
    rows: seq<Row>,
    status: Status)

  /** One turn of the receive loop. */
  datatype Event = Datagram(peer: Peer, wire: seq<byte>) | Timeout(idle: bool)

  // ---- pieces of finalize_trial ----

  lemma {:induction false} MaxExists(s: set<u32>) returns (m: u32)
    requires s != {}
    ensures m in s && forall k :: k in s ==> k <= m
  {
    m :| m in s;
    if s != {m} {
      var n := MaxExists(s - {m});
      assert forall k :: k in s ==> k == m || k in s - {m};
      if n > m {
        m := n;
      }
    }
  }

  ghost function Max(s: set<u32>): (m: u32)
    requires s != {}
    ensures m in s && forall k :: k in s ==> k <= m
  {
    assert exists m :: m in s && forall k :: k in s ==> k <= m by {
      var m := MaxExists(s);
    }
    var m :| m in s && forall k :: k in s ==> k <= m;
    m
  }

  /** sorted(keys). */
  ghost function Ascending(s: set<u32>): (r: seq<u32>)
    ensures forall k :: k in r <==> k in s
    ensures forall i, j :: 0 <= i < j < |r| ==> r[i] < r[j]
  {
    if s == {} then [] else Ascending(s - {Max(s)}) + [Max(s)]
  }

  /** b"".join over the given chunk indices. */
  function Join(chunks: map<u32, seq<byte>>, keys: seq<u32>): seq<byte>
    requires forall k :: k in keys ==> k in chunks
  {
    if keys == [] then [] else Join(chunks, keys[..|keys| - 1]) + chunks[keys[|keys| - 1]]
  }

  /** b"".join over range(n). */
  function JoinFirst(chunks: map<u32, seq<byte>>, n: u32): seq<byte>
    requires forall k: u32 :: k < n ==> k in chunks
  {
    if n == 0 then [] else JoinFirst(chunks, n - 1) + chunks[n - 1]
  }

  function Missing(chunks: map<u32, seq<byte>>, n: u32): (r: seq<u32>)
    ensures forall k: u32 :: k in r <==> k < n && k !in chunks
  {
    if n == 0 then []
    else Missing(chunks, n - 1) + (if n - 1 in chunks then [] else [n - 1])
  }

  /** The values extended by jitter_values for the given chunk indices. */
  function ValuesIn(chunks: map<u32, seq<byte>>, keys: seq<u32>): seq<u32>
    requires forall k :: k in keys ==> k in chunks
  {
    if keys == [] then []
    else ValuesIn(chunks, keys[..|keys| - 1]) + UnpackLe32(chunks[keys[|keys| - 1]])
  }

  ghost function JitterValues(chunks: map<u32, seq<byte>>): seq<u32> {
    ValuesIn(chunks, Ascending(chunks.Keys))
  }

  /** The raw bytes that finalize_trial accepts as complete, if it does. */
  function Reassembled(chunks: map<u32, seq<byte>>, expected: u32, rawLen: u32): Option<seq<byte>> {
    if expected > 0 && rawLen > 0 && Missing(chunks, expected) == [] then
      assert forall k: u32 :: k < expected ==> k !in Missing(chunks, expected);
      var raw := Truncated(JoinFirst(chunks, expected), rawLen);
      if |raw| == rawLen then Some(raw) else None
    else None
  }

  /** The interval that residuals are taken against; None when int() raises. */
  function IntervalFor(cfg: Config, t: Trial): Option<int> {
    var text := Get(t.result, "interval_us", "");
    if text == "" then Some(t.intervalUs) else cfg.ToInt(text)
  }

  /** bool(reported and reported == digest) */
  function CheckDigest(cfg: Config, t: Trial, key: string, data: seq<byte>): Digest {
    var reported, hex := Get(t.result, key, ""), cfg.sha256(data);
    Digest(hex, Some(reported != "" && reported == hex))
  }

  predicate FitsS32(v: int) {
    -0x8000_0000 <= v < 0x8000_0000
  }

  predicate ResidualsFit(values: seq<u32>, intervalUs: int) {
    forall v :: v in values ==> FitsS32(v - intervalUs)
  }

  /** pack_jitter_residual_s32le: two's complement, little endian. */
  function PackResiduals(values: seq<u32>, intervalUs: int): (s: seq<byte>)
    ensures |s| == 4 * |values|
  {
    if values == [] then []
    else Le(4, (values[0] - intervalUs) % U32_LIMIT) + PackResiduals(values[1..], intervalUs)
  }

  /** What makes finalize_trial raise when there is jitter. */
  predicate Unpackable(cfg: Config, t: Trial, values: seq<u32>) {
    IntervalFor(cfg, t).None? || !ResidualsFit(values, IntervalFor(cfg, t).value)
  }

  const NO_DIGEST := Digest("", None)

  /** The raw digest: of the raw file, of the partial file, or none. */
  function RawDigest(cfg: Config, t: Trial, found: Option<seq<byte>>, partial: seq<byte>): Digest {
    if found.Some? then CheckDigest(cfg, t, "raw_sha256", found.value)
    else if t.raw != map[] then Digest(cfg.sha256(partial), None)
    else NO_DIGEST
  }

  datatype Finalized = Filed(row: Row) | Raised(appended: seq<byte>)

  /** finalize_trial for given expected and raw_len. */
  ghost function Finalize(cfg: Config, key: Key, t: Trial, expected: u32, rawLen: u32): Finalized {
    var found := Reassembled(t.raw, expected, rawLen);
    var raw := if found.Some? then found.value else [];
    var partial := if found.None? then Join(t.raw, Ascending(t.raw.Keys)) else [];
    var values := JitterValues(t.jitter);
    if values != [] && Unpackable(cfg, t, values) then
      Raised(raw)
    else
      var interval := IntervalFor(cfg, t);
      var delta := PackLe32(values);
      var residual := if values == [] then [] else PackResiduals(values, interval.value);
      Filed(Row(t.captureId, key, found.Some?, raw, partial, expected, |t.raw|, Missing(t.raw, expected), values,
                if values == [] then 0 else interval.value, delta, residual,
                if found.Some? then raw + delta else [],
                RawDigest(cfg, t, found, partial),
                if values == [] then NO_DIGEST else CheckDigest(cfg, t, "jitter_sha256", delta),
                if found.Some? then CheckDigest(cfg, t, "response_sha256", raw + delta) else NO_DIGEST,
                t.result, t.intervalUs, t.helloNonce, t.startNonce))
  }

  // ---- the stimulus that answers a HELLO ----

  predicate IsU32(v: int) {
    0 <= v < U32_LIMIT
  }

  function Choice(given: Option<int>, asked: u32): int {
    if given.Some? then given.value else asked
  }

  /** The START packs: every overriding number fits its field. */
  predicate StartFits(cfg: Config, m: Message) {
    && IsU32(Choice(cfg.bursts, m.seqOrCount)) && IsU32(Choice(cfg.intervalUs, m.intervalUs))
    && IsU32(Choice(cfg.sampleBytes, m.sampleBytes))
  }

  function NonceFor(cfg: Config, m: Message): nonce16 {
    if cfg.fixedNonce.Some? then cfg.fixedNonce.value else m.nonce
  }

  function StartFor(cfg: Config, m: Message): Message
    requires StartFits(cfg, m)
  {
    Message(START, m.trial, Choice(cfg.bursts, m.seqOrCount), Choice(cfg.intervalUs, m.intervalUs),
            Choice(cfg.sampleBytes, m.sampleBytes), NonceFor(cfg, m), [])
  }

  /** sleep_us of burst k: the interval, jittered but not below zero. */
  function SleepFor(cfg: Config, m: Message, id: nat, k: nat): (us: nat)
    requires StartFits(cfg, m)
  {
    var us := Choice(cfg.intervalUs, m.intervalUs) + cfg.offset(id, k);
    if us < 0 then 0 else us
  }

  /** Burst k packs, and its datagram can be sent. */
  predicate BurstFits(cfg: Config, m: Message, id: nat, k: nat)
    requires StartFits(cfg, m)
  {
    IsU32(SleepFor(cfg, m, id, k)) && HEADER_LEN + |cfg.payload(id, k)| <= SEND_LIMIT
  }

  function BurstFor(cfg: Config, m: Message, id: nat, k: u32): Message
    requires StartFits(cfg, m) && BurstFits(cfg, m, id, k)
  {
    Message(BURST, m.trial, k, SleepFor(cfg, m, id, k), Choice(cfg.sampleBytes, m.sampleBytes), NonceFor(cfg, m),
            cfg.payload(id, k))
  }

  /** The first n bursts, up to one that does not fit. */
  function BurstsSent(cfg: Config, m: Message, id: nat, n: nat): (w: seq<seq<byte>>)
    requires StartFits(cfg, m) && n < U32_LIMIT
    ensures |w| <= n
  {
    if n == 0 then []
    else
      var w := BurstsSent(cfg, m, id, n - 1);
      if |w| == n - 1 && BurstFits(cfg, m, id, n - 1) then w + [MakeMessage(BurstFor(cfg, m, id, n - 1))] else w
  }

  /** What send_stimulus puts on the wire before it returns or raises. */
  function StimulusSent(cfg: Config, m: Message, id: nat): seq<seq<byte>> {
    if !StartFits(cfg, m) then []
    else
      [MakeMessage(StartFor(cfg, m))]
      + if cfg.DelayFits() then BurstsSent(cfg, m, id, StartFor(cfg, m).seqOrCount) else []
  }

  /** It returns when the START packs, the delay behind it can be slept, and all
      bursts fit. */
  predicate StimulusFits(cfg: Config, m: Message, id: nat) {
    && StartFits(cfg, m) && cfg.DelayFits()
    && |BurstsSent(cfg, m, id, StartFor(cfg, m).seqOrCount)| == StartFor(cfg, m).seqOrCount
  }

  function Addressed(peer: Peer, wires: seq<seq<byte>>): (s: seq<Sending>)
    ensures |s| == |wires|
  {
    if wires == [] then []
    else Addressed(peer, wires[..|wires| - 1]) + [Sending(peer, wires[|wires| - 1])]
  }

  // ---- one turn of the loop ----

  function NewTrial(cfg: Config, m: Message, id: nat): Trial
    requires StartFits(cfg, m)
  {
    var start := StartFor(cfg, m);
    Trial(id, m.nonce, start.nonce, start.seqOrCount, start.intervalUs, start.sampleBytes,
          None, None, map[], map[], map[])
  }

  /** payload[: sample_bytes] */
  function Body(m: Message): seq<byte> {
    Truncated(m.payload, m.sampleBytes)
  }

  /** RAW_BEGIN, RAW_CHUNK and JITTER_CHUNK; other kinds change nothing. */
  function Absorb(t: Trial, m: Message): Trial {
    if m.kind == RAW_BEGIN then t.(expected := Some(m.seqOrCount), rawLen := Some(m.sampleBytes))
    else if m.kind == RAW_CHUNK then t.(raw := t.raw[m.seqOrCount := Body(m)])
    else if m.kind == JITTER_CHUNK then t.(jitter := t.jitter[m.seqOrCount := Body(m)])
    else t
  }

  /** RAW_END supplies the counts that a lost RAW_BEGIN did not. */
  function AtEnd(t: Trial, m: Message): Trial {
    t.(expected := if t.expected.None? then Some(m.seqOrCount) else t.expected,
       rawLen := if t.rawLen.None? then Some(m.sampleBytes) else t.rawLen)
  }

  /** state.result.update(result) */
  function NoteResult(t: Trial, fields: map<string, string>): Trial {
    t.(result := t.result + fields)
  }

  /** What finalize_trial appends: a filed row goes to the four aggregates and
      the CSV; an exception leaves the raw bytes and ends the loop. */
  function Appended(s: State, out: Finalized): State {
    match out
    case Raised(appended) => s.(rawAll := s.rawAll + appended, status := Crashed(appended))
    case Filed(row) =>
      s.(completed := if row.complete then s.completed + 1 else s.completed,
         rawAll := s.rawAll + row.raw,
         deltaAll := s.deltaAll + row.delta,
         residualAll := s.residualAll + row.residual,
         jointAll := s.jointAll + row.response,
         rows := s.rows + [row])
  }

  /** After a filed row the trial is dropped from the table. */
  function Concluded(s: State, key: Key, t: Trial, out: Finalized): State {
    Appended(s, out).(states := if out.Raised? then s.states[key := t] else s.states - {key})
  }

  ghost function File(cfg: Config, s: State, key: Key, t: Trial): State
    requires t.expected.Some? && t.rawLen.Some?
  {
    Concluded(s, key, t, Finalize(cfg, key, t, t.expected.value, t.rawLen.value))
  }

  /** The HELLO branch: the id is taken and the stimulus sent; only if all of it
      goes out is there a new trial, else the exception ends the loop. */
  function OnHello(cfg: Config, s: State, key: Key, m: Message): State {
    var n := s.(counter := s.counter + 1, sent := s.sent + Addressed(key.peer, StimulusSent(cfg, m, s.counter)));
    if StimulusFits(cfg, m, s.counter) then n.(states := s.states[key := NewTrial(cfg, m, s.counter)])
    else n.(status := Crashed([]))
  }

  ghost function OnMessage(cfg: Config, s: State, key: Key, m: Message): State {
    if m.kind == HELLO then OnHello(cfg, s, key, m)
    else if key !in s.states then s
    else if m.kind == RAW_END then File(cfg, s, key, AtEnd(s.states[key], m))
    else s.(states := s.states[key := Absorb(s.states[key], m)])
  }

  predicate Live(cfg: Config, s: State) {
    s.status == Running && s.completed < cfg.target
  }

  /** A datagram as it was received. */
  ghost function OnData(cfg: Config, s: State, peer: Peer, data: seq<byte>): State {
    match cfg.ResultLineOf(data)
    case BadTrial => s.(status := Crashed([]))
    case Result(trial, fields) =>
      var key := Key(peer, trial);
      if key !in s.states then s else s.(states := s.states[key := NoteResult(s.states[key], fields)])
    case NotResult =>
      match ParseMessage(data)
      case None => s
      case Some(m) => OnMessage(cfg, s, Key(peer, m.trial), m)
  }

  ghost function Step(cfg: Config, s: State, e: Event): State {
    if !Live(cfg, s) then s
    else match e
      case Timeout(idle) => if idle then s.(status := Stopped) else s
      case Datagram(peer, wire) => OnData(cfg, s, peer, Truncated(wire, RECV_LIMIT))
  }

  ghost function Run(cfg: Config, s: State, events: seq<Event>): State
    decreases |events|
  {
    if events == [] then s else Run(cfg, Step(cfg, s, events[0]), events[1..])
  }

  function Initial(rawAll: seq<byte>, deltaAll: seq<byte>, residualAll: seq<byte>, jointAll: seq<byte>): State {
    State(map[], 0, 0, [], rawAll, deltaAll, residualAll, jointAll, [], Running)
  }
}
