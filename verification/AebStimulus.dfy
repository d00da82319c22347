/** What a HELLO is answered with, and what the other messages do to a trial, in
    terms of the command line and of the received fields. */
module AebStimulus {
  import opened Bytes
  import opened AebMessage
  import opened AebCollector

  // ---- the stimulus ----

  /** The datagram is received as this message. */
  ghost predicate Says(w: seq<byte>, kind: u16, trial: u32, count: int, us: int, size: int, nonce: nonce16,
                       payload: seq<byte>) {
    && ParseMessage(w).Some?
    && var p := ParseMessage(w).value;
    && p.kind == kind && p.trial == trial && p.seqOrCount == count && p.intervalUs == us && p.sampleBytes == size
    && p.nonce == nonce && p.payload == payload
  }

  lemma MadeSays(m: Message)
    ensures Says(MakeMessage(m), m.kind, m.trial, m.seqOrCount, m.intervalUs, m.sampleBytes, m.nonce, m.payload)
  {
    ParseOfMake(m, |MakeMessage(m)|);
    assert Truncated(MakeMessage(m), |MakeMessage(m)|) == MakeMessage(m);
  }

  /** Numbers of the command line go before those of the HELLO. */
  ghost predicate Chosen(cfg: Config, m: Message, count: int, us: int, size: int, nonce: nonce16) {
    && count == (if cfg.bursts.Some? then cfg.bursts.value else m.seqOrCount)
    && us == (if cfg.intervalUs.Some? then cfg.intervalUs.value else m.intervalUs)
    && size == (if cfg.sampleBytes.Some? then cfg.sampleBytes.value else m.sampleBytes)
    && nonce == (if cfg.fixedNonce.Some? then cfg.fixedNonce.value else m.nonce)
  }

  /** Burst k: its number, the sleep before it (the interval and a random offset,
      but not below zero) and its payload. */
  ghost predicate SaysBurst(cfg: Config, m: Message, id: nat, w: seq<byte>, k: nat, us: int, size: int,
                            nonce: nonce16) {
    Says(w, BURST, m.trial, k, if us + cfg.offset(id, k) < 0 then 0 else us + cfg.offset(id, k), size, nonce,
         cfg.payload(id, k))
  }

  /** Its sleep fits 32 bits, and its datagram one over IPv4. */
  predicate CanSend(cfg: Config, id: nat, k: nat, us: int) {
    us + cfg.offset(id, k) < 4294967296 && 40 + |cfg.payload(id, k)| <= 65507
  }

  ghost predicate BurstsAre(cfg: Config, m: Message, id: nat, w: seq<seq<byte>>, us: int, size: int, nonce: nonce16) {
    forall k :: 0 <= k < |w| ==> SaysBurst(cfg, m, id, w[k], k, us, size, nonce) && CanSend(cfg, id, k, us)
  }

  lemma FitsIff(cfg: Config, m: Message, id: nat, k: nat, count: int, us: int, size: int, nonce: nonce16)
    requires StartFits(cfg, m) && Chosen(cfg, m, count, us, size, nonce)
    ensures BurstFits(cfg, m, id, k) <==> CanSend(cfg, id, k, us)
  {
  }

  lemma BurstSays(cfg: Config, m: Message, id: nat, k: u32, count: int, us: int, size: int, nonce: nonce16)
    requires StartFits(cfg, m) && BurstFits(cfg, m, id, k) && Chosen(cfg, m, count, us, size, nonce)
    ensures SaysBurst(cfg, m, id, MakeMessage(BurstFor(cfg, m, id, k)), k, us, size, nonce)
  {
    MadeSays(BurstFor(cfg, m, id, k));
  }

  lemma {:induction false} BurstsSay(cfg: Config, m: Message, id: nat, n: nat, count: int, us: int, size: int,
                                     nonce: nonce16)
    requires StartFits(cfg, m) && n < U32_LIMIT && Chosen(cfg, m, count, us, size, nonce)
    ensures BurstsAre(cfg, m, id, BurstsSent(cfg, m, id, n), us, size, nonce)
    ensures |BurstsSent(cfg, m, id, n)| < n ==> !CanSend(cfg, id, |BurstsSent(cfg, m, id, n)|, us)
  {
    if n > 0 {
      BurstsSay(cfg, m, id, n - 1, count, us, size, nonce);
      FitsIff(cfg, m, id, n - 1, count, us, size, nonce);
      if BurstFits(cfg, m, id, n - 1) {
        BurstSays(cfg, m, id, n - 1, count, us, size, nonce);
      }
    }
  }

  lemma StartSays(cfg: Config, m: Message, id: nat, count: int, us: int, size: int, nonce: nonce16)
    requires StartFits(cfg, m) && Chosen(cfg, m, count, us, size, nonce)
    ensures StartFor(cfg, m).seqOrCount == count
    ensures StimulusSent(cfg, m, id) != []
    ensures Says(StimulusSent(cfg, m, id)[0], START, m.trial, count, us, size, nonce, [])
    ensures StimulusSent(cfg, m, id)[1..] == if cfg.DelayFits() then BurstsSent(cfg, m, id, count) else []
  {
    MadeSays(StartFor(cfg, m));
  }

  /** Everything that a HELLO is answered with: nothing if a number of the START
      does not fit 32 bits; else the START, and behind it, if the start delay can
      be slept, the bursts in order up to the first that cannot be sent. */
  lemma StimulusSays(cfg: Config, m: Message, id: nat, count: int, us: int, size: int, nonce: nonce16)
    requires Chosen(cfg, m, count, us, size, nonce)
    ensures
      var w := StimulusSent(cfg, m, id);
      if !(0 <= count < 4294967296 && 0 <= us < 4294967296 && 0 <= size < 4294967296) then w == []
      else
        && w != [] && Says(w[0], START, m.trial, count, us, size, nonce, [])
        && |w[1..]| <= count && BurstsAre(cfg, m, id, w[1..], us, size, nonce)
        && (!(0 <= cfg.startDelayMs <= 9_223_372_036_854) ==> w[1..] == [])
        && (0 <= cfg.startDelayMs <= 9_223_372_036_854 && |w[1..]| < count ==> !CanSend(cfg, id, |w[1..]|, us))
  {
    if StartFits(cfg, m) {
      StartSays(cfg, m, id, count, us, size, nonce);
      BurstsSay(cfg, m, id, count, count, us, size, nonce);
    }
  }

  /** All of it goes to the sender of the HELLO, in order. */
  lemma {:induction false} AddressedAt(peer: Peer, wires: seq<seq<byte>>, i: nat)
    requires i < |wires|
    ensures Addressed(peer, wires)[i] == Sending(peer, wires[i])
  {
    if i < |wires| - 1 {
      AddressedAt(peer, wires[..|wires| - 1], i);
    }
  }

  /** The trial that a HELLO starts: the next id, both nonces, the numbers of its
      START, and nothing received yet. */
  lemma NewTrialSays(cfg: Config, m: Message, id: nat, count: int, us: int, size: int, nonce: nonce16)
    requires StartFits(cfg, m) && Chosen(cfg, m, count, us, size, nonce)
    ensures
      var t := NewTrial(cfg, m, id);
      && t.captureId == id && t.helloNonce == m.nonce && t.startNonce == nonce
      && t.bursts == count && t.intervalUs == us && t.sampleBytes == size
      && t.expected == None && t.rawLen == None && t.raw == map[] && t.jitter == map[] && t.result == map[]
  {
  }

  /** A HELLO takes the next id and sends its stimulus to its sender; if all of that
      went out the key has a new trial, else the exception ends the loop. */
  lemma HelloSays(cfg: Config, s: State, key: Key, m: Message, i: nat)
    ensures
      var n, w := OnHello(cfg, s, key, m), StimulusSent(cfg, m, s.counter);
      && n.counter == s.counter + 1 && n.rows == s.rows && n.completed == s.completed
      && |n.sent| == |s.sent| + |w| && s.sent <= n.sent
      && (i < |w| ==> n.sent[|s.sent| + i] == Sending(key.peer, w[i]))
      && (StimulusFits(cfg, m, s.counter) ==>
            n.status == s.status && n.states == s.states[key := NewTrial(cfg, m, s.counter)])
      && (!StimulusFits(cfg, m, s.counter) ==> n.status == Crashed([]) && n.states == s.states)
  {
    if i < |StimulusSent(cfg, m, s.counter)| {
      AddressedAt(key.peer, StimulusSent(cfg, m, s.counter), i);
    }
  }

  // ---- what arrives for a trial ----

  /** The chunk's bytes: its payload, but no more than the message announces. */
  lemma BodySays(m: Message)
    ensures |Body(m)| == if |m.payload| <= m.sampleBytes then |m.payload| else m.sampleBytes
    ensures Body(m) <= m.payload
  {
  }

  /** A chunk is stored under its number, a later copy over an earlier one; RAW_BEGIN
      announces the two counts; RAW_END supplies those not announced. Nothing
      else of the trial changes. */
  lemma AbsorbSays(t: Trial, m: Message)
    ensures m.kind == 4 ==> Absorb(t, m) == t.(expected := Some(m.seqOrCount), rawLen := Some(m.sampleBytes))
    ensures m.kind == 5 ==> Absorb(t, m) == t.(raw := t.raw[m.seqOrCount := Body(m)])
    ensures m.kind == 7 ==> Absorb(t, m) == t.(jitter := t.jitter[m.seqOrCount := Body(m)])
    ensures m.kind != 4 && m.kind != 5 && m.kind != 7 ==> Absorb(t, m) == t
    ensures t.expected.Some? && t.rawLen.Some? ==> AtEnd(t, m) == t
    ensures t.expected.None? ==> AtEnd(t, m).expected == Some(m.seqOrCount)
    ensures t.rawLen.None? ==> AtEnd(t, m).rawLen == Some(m.sampleBytes)
    ensures AtEnd(t, m) == t.(expected := AtEnd(t, m).expected, rawLen := AtEnd(t, m).rawLen)
  {
  }

  /** A result line's fields replace those of the same names, and keep the others. */
  lemma NoteSays(t: Trial, fields: map<string, string>, name: string)
    ensures name in fields ==>
      name in NoteResult(t, fields).result && NoteResult(t, fields).result[name] == fields[name]
    ensures name !in fields ==> (name in NoteResult(t, fields).result <==> name in t.result)
    ensures name !in fields && name in t.result ==> NoteResult(t, fields).result[name] == t.result[name]
    ensures NoteResult(t, fields) == t.(result := NoteResult(t, fields).result)
  {
  }

  // ---- one turn ----

  /** The loop is over once it has stopped, crashed or completed enough trials; an
      idle timeout stops it, and other timeouts do nothing. */
  lemma TurnSays(cfg: Config, s: State, idle: bool)
    ensures s.status != Running || s.completed >= cfg.target ==> forall e :: Step(cfg, s, e) == s
    ensures s.status == Running && s.completed < cfg.target ==>
      Step(cfg, s, Timeout(idle)) == if idle then s.(status := Stopped) else s
  {
  }

  /** A result line only notes its fields, and only for a live trial of its sender; a
      message other than HELLO only concerns a live trial of its sender; anything
      else is ignored. */
  lemma DataSays(cfg: Config, s: State, peer: Peer, data: seq<byte>)
    ensures cfg.ResultLineOf(data).BadTrial? ==> OnData(cfg, s, peer, data) == s.(status := Crashed([]))
    ensures cfg.ResultLineOf(data).Result? ==>
      var key := Key(peer, cfg.ResultLineOf(data).trial);
      && (key !in s.states ==> OnData(cfg, s, peer, data) == s)
      && (key in s.states ==>
            var t := NoteResult(s.states[key], cfg.ResultLineOf(data).fields);
            OnData(cfg, s, peer, data) == s.(states := s.states[key := t]))
    ensures cfg.ResultLineOf(data).NotResult? && ParseMessage(data).None? ==> OnData(cfg, s, peer, data) == s
    ensures cfg.ResultLineOf(data).NotResult? && ParseMessage(data).Some? ==>
      var m := ParseMessage(data).value;
      m.kind != HELLO && Key(peer, m.trial) !in s.states ==> OnData(cfg, s, peer, data) == s
  {
  }
}
