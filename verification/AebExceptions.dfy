/** Concrete runs in which the collector raises, one for each cause, and what the
    raw aggregate then holds. */
module AebExceptions {
  import opened Bytes
  import opened PyText
  import opened AebMessage
  import opened AebCollector
  import opened AebCollectorRun
  import opened AebNetwork

  function PlainDecode(data: seq<byte>): string {
    if AllAscii(data) then Chars(data) else if data[0] < 128 then [data[0] as char] else ""
  }

  /** No options on the command line, and a decoder that is right on ASCII. */
  const PLAIN: Config :=
    Config(1, None, None, None, None, 20, (id: nat, k: nat) => 0, (id: nat, k: nat) => [],
           PlainDecode, (s: string) => None, (data: seq<byte>) => "")

  /** The hypothesis about decoding can be met. */
  lemma PlainIsSound()
    ensures PLAIN.Sound()
  {
    forall data: seq<byte> | data != [] && data[0] < 128
      ensures PLAIN.decode(data) != "" && PLAIN.decode(data)[0] as int == data[0]
    {
    }
  }

  // ---- a result line whose trial is no number ----

  const BAD_LINE := "[AEB_RESULT] trial=x"

  lemma BadLineIs()
    ensures BAD_LINE == RESULT_TAG + Printed(TokensOf([Pair("trial", "x")])) + ""
  {
    var pairs := [Pair("trial", "x")];
    assert "trial" + "=" + "x" == "trial=x";
    assert TokensOf(pairs[1..]) == [] && TokensOf(pairs) == ["trial=x"];
    assert Printed(["trial=x"][1..]) == "";
  }

  lemma BadField(cfg: Config)
    ensures Get(MapOf([Pair("trial", "x")]), "trial", "-1") == "x" && cfg.ToInt("x") == None
  {
    assert MapOf([Pair("trial", "x")][..0]) == map[];
    assert DigitsOf("x", 10) == None;
  }

  lemma BadLineParses(cfg: Config)
    requires cfg.Sound()
    ensures cfg.ResultLineOf(TextBytes(BAD_LINE)) == BadTrial
  {
    var pairs := [Pair("trial", "x")];
    assert PlainPair(pairs[0]);
    BadLineIs();
    DecodesText(cfg, BAD_LINE);
    BadField(cfg);
    PrintedResultLine(cfg, pairs, "", TextBytes(BAD_LINE));
  }

  /** It ends any running collector. */
  lemma BadTrialRaises(cfg: Config, s: State, peer: Peer)
    requires cfg.Sound() && Live(cfg, s)
    ensures Step(cfg, s, Datagram(peer, TextBytes(BAD_LINE))) == s.(status := Crashed([]))
  {
    BadLineParses(cfg);
  }

  // ---- a stimulus that raises ----

  const ZEROS: nonce16 := [0, 0, 0, 0, 0, 0, 0, 0, 0, 0, 0, 0, 0, 0, 0, 0]
  const HELLO_7: Message := Message(HELLO, 7, 0, 1000, 1, ZEROS, [])
  const CHUNK_7: Message := Message(RAW_CHUNK, 7, 0, 1000, 1, ZEROS, [5])
  const JITTER_7: Message := Message(JITTER_CHUNK, 7, 0, 1000, 4, ZEROS, [255, 255, 255, 255])
  const END_7: Message := Message(RAW_END, 7, 1, 1000, 1, ZEROS, [])

  /** An interval of 2^32 microseconds on the command line: the first HELLO ends
      the collector, before any START is sent. */
  lemma WideIntervalRaises(peer: Peer)
    ensures
      var cfg := PLAIN.(intervalUs := Some(U32_LIMIT));
      var s := Step(cfg, Initial([], [], [], []), Datagram(peer, MakeMessage(HELLO_7)));
      s.status == Crashed([]) && s.sent == [] && s.counter == 1
  {
    var cfg := PLAIN.(intervalUs := Some(U32_LIMIT));
    PlainIsSound();
    assert cfg.Sound();
    MessageStep(cfg, Initial([], [], [], []), peer, HELLO_7);
  }

  /** A negative start delay on the command line: the first HELLO gets its START,
      and then ends the collector. */
  lemma NegativeDelayRaises(peer: Peer, delay: int)
    requires delay < 0
    ensures
      var cfg := PLAIN.(startDelayMs := delay);
      var s := Step(cfg, Initial([], [], [], []), Datagram(peer, MakeMessage(HELLO_7)));
      s.status == Crashed([]) && s.sent == [Sending(peer, MakeMessage(StartFor(cfg, HELLO_7)))] && s.counter == 1
  {
    var cfg := PLAIN.(startDelayMs := delay);
    PlainIsSound();
    assert cfg.Sound();
    MessageStep(cfg, Initial([], [], [], []), peer, HELLO_7);
    AddressedOne(peer, MakeMessage(StartFor(cfg, HELLO_7)));
  }

  lemma AddressedOne(peer: Peer, wire: seq<byte>)
    ensures Addressed(peer, [wire]) == [Sending(peer, wire)] && Addressed(peer, [wire] + []) == [Sending(peer, wire)]
  {
    assert [wire][..0] == [] && [wire] + [] == [wire];
  }

  /** A burst payload that no UDP datagram can carry: the START goes out, and the
      first burst ends the collector. */
  lemma LongPayloadRaises(peer: Peer, payload: seq<byte>)
    requires |payload| > SEND_LIMIT - HEADER_LEN
    ensures
      var cfg, m := PLAIN.(payload := (id: nat, k: nat) => payload), HELLO_7.(seqOrCount := 1);
      var s := Step(cfg, Initial([], [], [], []), Datagram(peer, MakeMessage(m)));
      s.status == Crashed([]) && s.sent == [Sending(peer, MakeMessage(StartFor(cfg, m)))] && s.counter == 1
  {
    var cfg, m := PLAIN.(payload := (id: nat, k: nat) => payload), HELLO_7.(seqOrCount := 1);
    PlainIsSound();
    assert cfg.Sound();
    MessageStep(cfg, Initial([], [], [], []), peer, m);
    assert !BurstFits(cfg, m, 0, 0);
    assert BurstsSent(cfg, m, 0, 1) == [];
    AddressedOne(peer, MakeMessage(StartFor(cfg, m)));
  }

  // ---- jitter that does not pack ----

  /** No overrides, and a start delay that can be slept. */
  predicate Defaults(cfg: Config) {
    cfg.bursts == cfg.intervalUs == cfg.sampleBytes == None && cfg.DelayFits()
  }

  /** One raw byte, one delta of 2^32 - 1, an interval of 1000. */
  function OrphanEvents(peer: Peer): (e: seq<Event>)
    ensures |e| == 4
  {
    [Datagram(peer, MakeMessage(HELLO_7)), Datagram(peer, MakeMessage(CHUNK_7)),
     Datagram(peer, MakeMessage(JITTER_7)), Datagram(peer, MakeMessage(END_7))]
  }

  /** The trial that those messages leave behind. */
  predicate OrphanTrial(t: Trial) {
    && t.raw == map[0 := [5]] && t.jitter == map[0 := [255, 255, 255, 255]]
    && t.expected.None? && t.rawLen.None? && t.intervalUs == 1000 && t.result == map[]
  }

  lemma AscendingOne()
    ensures Ascending({0}) == [0]
  {
    assert Max({0}) == 0;
    assert {0} - {0 as u32} == {};
  }

  lemma LargestDelta()
    ensures UnpackLe32([255, 255, 255, 255]) == [0xFFFF_FFFF]
  {
    assert Le(1, 255) == [255];
    assert Le(2, 0xFFFF) == [255] + Le(1, 255);
    assert Le(3, 0xFF_FFFF) == [255] + Le(2, 0xFFFF);
    assert Le(4, 0xFFFF_FFFF) == [255] + Le(3, 0xFF_FFFF) == [255, 255, 255, 255];
    assert PackLe32([0xFFFF_FFFF]) == Le(4, 0xFFFF_FFFF) + PackLe32([]);
    UnpackOfPack([0xFFFF_FFFF]);
  }

  lemma OrphanJitter(jitter: map<u32, seq<byte>>)
    requires jitter == map[0 := [255, 255, 255, 255]]
    ensures JitterValues(jitter) == [0xFFFF_FFFF]
  {
    AscendingOne();
    LargestDelta();
    assert jitter.Keys == {0};
    assert [0 as u32][..0] == [];
    assert ValuesIn(jitter, [0]) == ValuesIn(jitter, []) + UnpackLe32(jitter[0]);
  }

  lemma OrphanFile(cfg: Config, s: State, key: Key, t: Trial)
    requires OrphanTrial(t)
    ensures File(cfg, s, key, AtEnd(t, END_7))
      == s.(states := s.states[key := AtEnd(t, END_7)], rawAll := s.rawAll + [5], status := Crashed([5]))
  {
    var u := AtEnd(t, END_7);
    OrphanJitter(u.jitter);
    assert Missing(u.raw, 1) == [];
    assert JoinFirst(u.raw, 1) == JoinFirst(u.raw, 0) + [5] == [5];
    assert Reassembled(u.raw, 1, 1) == Some([5]);
    assert !FitsS32(0xFFFF_FFFF - 1000);
    assert 0xFFFF_FFFF in JitterValues(u.jitter);
  }

  /** A running collector that has filed nothing since s. */
  ghost predicate Waits(cfg: Config, s: State, n: State, peer: Peer) {
    Live(cfg, n) && n.rows == s.rows && n.rawAll == s.rawAll && Key(peer, 7) in n.states
  }

  lemma AfterHello(cfg: Config, s: State, peer: Peer)
    requires cfg.Sound() && Live(cfg, s) && Defaults(cfg)
    ensures
      var n := Step(cfg, s, OrphanEvents(peer)[0]);
      Waits(cfg, s, n, peer) && n.states[Key(peer, 7)] == NewTrial(cfg, HELLO_7, s.counter)
  {
    MessageStep(cfg, s, peer, HELLO_7);
    assert StimulusFits(cfg, HELLO_7, s.counter);
  }

  lemma AfterChunk(cfg: Config, s: State, peer: Peer, m: Message)
    requires cfg.Sound() && Live(cfg, s) && Key(peer, 7) in s.states && m.trial == 7 && |m.payload| < 10
    requires m.kind == RAW_CHUNK || m.kind == JITTER_CHUNK
    ensures
      var n := Step(cfg, s, Datagram(peer, MakeMessage(m)));
      Waits(cfg, s, n, peer) && n.states[Key(peer, 7)] == Absorb(s.states[Key(peer, 7)], m)
  {
    MessageStep(cfg, s, peer, m);
    assert m.(payload := Truncated(m.payload, PAYLOAD_LIMIT)) == m;
  }

  lemma RunThree(cfg: Config, s: State, e: seq<Event>)
    requires |e| >= 3
    ensures Run(cfg, s, e[..3]) == Step(cfg, Step(cfg, Step(cfg, s, e[0]), e[1]), e[2])
  {
    assert e[..1] == [] + [e[0]] && e[..2] == e[..1] + [e[1]] && e[..3] == e[..2] + [e[2]];
    RunAppend(cfg, s, [], e[0]);
    RunAppend(cfg, s, e[..1], e[1]);
    RunAppend(cfg, s, e[..2], e[2]);
  }

  /** Such a collector meets such a trial. */
  lemma OrphanTrialReached(cfg: Config, s: State, peer: Peer)
    requires cfg.Sound() && Live(cfg, s) && Defaults(cfg)
    ensures
      var n := Run(cfg, s, OrphanEvents(peer)[..3]);
      Waits(cfg, s, n, peer) && OrphanTrial(n.states[Key(peer, 7)])
  {
    var e := OrphanEvents(peer);
    var s1 := Step(cfg, s, e[0]);
    var s2 := Step(cfg, s1, e[1]);
    RunThree(cfg, s, e);
    AfterHello(cfg, s, peer);
    AfterChunk(cfg, s1, peer, CHUNK_7);
    AfterChunk(cfg, s2, peer, JITTER_7);
  }

  /** From program start, with any files: the run ends in an exception, no row is
      filed, and the raw aggregate holds a byte of no row. */
  lemma OrphanRun(cfg: Config, peer: Peer, raw: seq<byte>, delta: seq<byte>, residual: seq<byte>, joint: seq<byte>)
    requires cfg.Sound() && cfg.target > 0 && Defaults(cfg)
    ensures
      var s0 := Initial(raw, delta, residual, joint);
      var s := Run(cfg, s0, OrphanEvents(peer));
      && s.status == Crashed([5]) && s.rows == [] && s.rawAll == raw + [5] && !RawExact(s0, s)
      && !NeverOrphans(cfg, s0, OrphanEvents(peer))
  {
    var s0, e := Initial(raw, delta, residual, joint), OrphanEvents(peer);
    var n := Run(cfg, s0, e[..3]);
    OrphanTrialReached(cfg, s0, peer);
    assert e == e[..3] + [e[3]];
    RunAppend(cfg, s0, e[..3], e[3]);
    MessageStep(cfg, n, peer, END_7);
    OrphanFile(cfg, n, Key(peer, 7), n.states[Key(peer, 7)]);
    assert |raw + [5]| != |raw + Gather([], RawOf)|;
    RunExactIff(cfg, s0, s0, e);
  }
}
