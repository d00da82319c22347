/** The collector's receive loop: a dictionary of mutable trial states, updated
    in place, and the append-only output files. */
module AebCollectorLoop {
  import opened Bytes
  import opened AebMessage
  import opened AebCollector

  /** The dataclass that the receive loop keeps per peer and trial. */
  class TrialState {
    const captureId: nat
    const helloNonce: nonce16
    const startNonce: nonce16
    const bursts: u32
    const intervalUs: u32
    const sampleBytes: u32
    var expected: Option<u32>
    var rawLen: Option<u32>
    var raw: map<u32, seq<byte>>
    var jitter: map<u32, seq<byte>>
    var result: map<string, string>

    constructor (t: Trial)
      ensures Value() == t
    {
      captureId, helloNonce, startNonce := t.captureId, t.helloNonce, t.startNonce;
      bursts, intervalUs, sampleBytes := t.bursts, t.intervalUs, t.sampleBytes;
      expected, rawLen, raw, jitter, result := t.expected, t.rawLen, t.raw, t.jitter, t.result;
    }

    function Value(): Trial
      reads this
    {
      Trial(captureId, helloNonce, startNonce, bursts, intervalUs, sampleBytes, expected, rawLen, raw, jitter, result)
    }

    /** The RAW_BEGIN, RAW_CHUNK and JITTER_CHUNK branches. */
    method Take(m: Message)
      modifies this
      ensures Value() == Absorb(old(Value()), m)
    {
      if m.kind == RAW_BEGIN {
        expected := Some(m.seqOrCount);
        rawLen := Some(m.sampleBytes);
      } else if m.kind == RAW_CHUNK {
        raw := raw[m.seqOrCount := Body(m)];
      } else if m.kind == JITTER_CHUNK {
        jitter := jitter[m.seqOrCount := Body(m)];
      }
    }

    /** The defaults that RAW_END supplies. */
    method Close(m: Message)
      modifies this
      ensures Value() == AtEnd(old(Value()), m)
    {
      if expected.None? {
        expected := Some(m.seqOrCount);
      }
      if rawLen.None? {
        rawLen := Some(m.sampleBytes);
      }
    }
  }

  lemma AddressedSnoc(peer: Peer, wires: seq<seq<byte>>, wire: seq<byte>)
    ensures Addressed(peer, wires + [wire]) == Addressed(peer, wires) + [Sending(peer, wire)]
  {
    assert (wires + [wire])[..|wires|] == wires;
  }

  lemma {:induction false} BurstsStopped(cfg: Config, m: Message, id: nat, k: nat, n: nat)
    requires StartFits(cfg, m) && k <= n < U32_LIMIT && |BurstsSent(cfg, m, id, k)| < k
    ensures BurstsSent(cfg, m, id, n) == BurstsSent(cfg, m, id, k)
  {
    if k < n {
      BurstsStopped(cfg, m, id, k, n - 1);
    }
  }

  /** START and the first k bursts, addressed. */
  function Sofar(cfg: Config, peer: Peer, m: Message, id: nat, k: nat): seq<Sending>
    requires StartFits(cfg, m) && k < U32_LIMIT
  {
    Addressed(peer, [MakeMessage(StartFor(cfg, m))] + BurstsSent(cfg, m, id, k))
  }

  lemma SofarStarts(cfg: Config, peer: Peer, m: Message, id: nat)
    requires StartFits(cfg, m)
    ensures Sofar(cfg, peer, m, id, 0) == [Sending(peer, MakeMessage(StartFor(cfg, m)))]
    ensures |BurstsSent(cfg, m, id, 0)| == 0
  {
    var first := [MakeMessage(StartFor(cfg, m))];
    assert first + [] == first && first[..0] == [];
  }

  /** A delay that cannot be slept leaves the START. */
  lemma StartOnly(cfg: Config, m: Message, id: nat)
    requires StartFits(cfg, m) && !cfg.DelayFits()
    ensures StimulusSent(cfg, m, id) == [MakeMessage(StartFor(cfg, m))]
  {
    assert [MakeMessage(StartFor(cfg, m))] + [] == [MakeMessage(StartFor(cfg, m))];
  }

  /** A burst that fits follows those before it. */
  lemma SofarGrows(cfg: Config, peer: Peer, m: Message, id: nat, k: u32)
    requires StartFits(cfg, m) && k + 1 < U32_LIMIT && |BurstsSent(cfg, m, id, k)| == k
    requires BurstFits(cfg, m, id, k)
    ensures |BurstsSent(cfg, m, id, k + 1)| == k + 1
    ensures Sofar(cfg, peer, m, id, k + 1)
         == Sofar(cfg, peer, m, id, k) + [Sending(peer, MakeMessage(BurstFor(cfg, m, id, k)))]
  {
    var first, wire := [MakeMessage(StartFor(cfg, m))], MakeMessage(BurstFor(cfg, m, id, k));
    AddressedSnoc(peer, first + BurstsSent(cfg, m, id, k), wire);
    Associate(first, BurstsSent(cfg, m, id, k), [wire]);
  }

  /** One that does not ends them. */
  lemma SofarEnds(cfg: Config, peer: Peer, m: Message, id: nat, k: u32)
    requires StartFits(cfg, m) && k < StartFor(cfg, m).seqOrCount && |BurstsSent(cfg, m, id, k)| == k
    requires !BurstFits(cfg, m, id, k) && cfg.DelayFits()
    ensures Addressed(peer, StimulusSent(cfg, m, id)) == Sofar(cfg, peer, m, id, k) && !StimulusFits(cfg, m, id)
  {
    assert BurstsSent(cfg, m, id, k + 1) == BurstsSent(cfg, m, id, k);
    BurstsStopped(cfg, m, id, k + 1, StartFor(cfg, m).seqOrCount);
  }

  /** sorted(): the keys in ascending order. */
  method Sorted(keys: set<u32>) returns (r: seq<u32>)
    ensures r == Ascending(keys)
  {
    var rest := keys;
    r := [];
    while rest != {}
      invariant Ascending(rest) + r == Ascending(keys)
      decreases rest
    {
      ghost var top := MaxExists(rest);
      var m :| m in rest && forall k :: k in rest ==> k <= m;
      assert m == Max(rest);
      assert Ascending(rest) == Ascending(rest - {m}) + [m];
      Associate(Ascending(rest - {m}), [m], r);
      r := [m] + r;
      rest := rest - {m};
    }
  }

  lemma ValuesInPrefix(chunks: map<u32, seq<byte>>, keys: seq<u32>, i: nat)
    requires i < |keys| && forall k :: k in keys ==> k in chunks
    ensures forall k :: k in keys[..i] ==> k in chunks
    ensures forall k :: k in keys[..i + 1] ==> k in chunks
    ensures keys[i] in chunks
    ensures ValuesIn(chunks, keys[..i + 1]) == ValuesIn(chunks, keys[..i]) + UnpackLe32(chunks[keys[i]])
  {
    assert keys[i] in keys;
    assert forall k :: k in keys[..i] ==> k in keys;
    assert keys[..i + 1][..i] == keys[..i];
  }

  /** jitter_values: extend by each chunk in key order. */
  method CollectJitter(chunks: map<u32, seq<byte>>) returns (values: seq<u32>)
    ensures values == JitterValues(chunks)
  {
    var keys := Sorted(chunks.Keys);
    values := [];
    for i := 0 to |keys|
      invariant forall k :: k in keys[..i] ==> k in chunks
      invariant values == ValuesIn(chunks, keys[..i])
    {
      ValuesInPrefix(chunks, keys, i);
      var payload := chunks[keys[i]];
      UnpackUsable(payload);
      values := values + UnpackLe32(payload[..|payload| - |payload| % 4]);
    }
    assert keys[..|keys|] == keys;
  }

  /** Only the whole four-byte groups of a payload are unpacked. */
  lemma {:induction false} UnpackUsable(s: seq<byte>)
    ensures UnpackLe32(s[..|s| - |s| % 4]) == UnpackLe32(s)
  {
    if |s| >= 4 {
      UnpackUsable(s[4..]);
      var usable := s[..|s| - |s| % 4];
      assert usable[..4] == s[..4] && usable[4..] == s[4..][..|s[4..]| - |s[4..]| % 4];
    }
  }

  class Collector {
    const cfg: Config
    var states: map<Key, TrialState>
    var completed: nat
    var counter: nat
    var sent: seq<Sending>
    var rawAll: seq<byte>
    var deltaAll: seq<byte>
    var residualAll: seq<byte>
    var jointAll: seq<byte>
    var rows: seq<Row>
    var status: Status

    constructor (cfg: Config, rawAll: seq<byte>, deltaAll: seq<byte>, residualAll: seq<byte>, jointAll: seq<byte>)
      ensures Valid() && this.cfg == cfg && View() == Initial(rawAll, deltaAll, residualAll, jointAll)
    {
      this.cfg, states, completed, counter, sent := cfg, map[], 0, 0, [];
      this.rawAll, this.deltaAll, this.residualAll, this.jointAll := rawAll, deltaAll, residualAll, jointAll;
      rows, status := [], Running;
    }

    /** No two keys share a trial object. */
    ghost predicate Valid()
      reads this`states
    {
      forall k, l :: k in states && l in states && k != l ==> states[k] != states[l]
    }

    ghost function Trials(): map<Key, Trial>
      reads this`states, states.Values
    {
      map k | k in states :: states[k].Value()
    }

    /** Everything but the table of live trials. */
    ghost function Outputs(): State
      reads this`completed, this`counter, this`sent, this`rawAll, this`deltaAll, this`residualAll, this`jointAll
      reads this`rows, this`status
    {
      State(map[], completed, counter, sent, rawAll, deltaAll, residualAll, jointAll, rows, status)
    }

    ghost function View(): State
      reads this, states.Values
    {
      Outputs().(states := Trials())
    }

    /** The raw half of finalize_trial: join, cut to raw_len, or keep a partial. */
    static method Reassemble(chunks: map<u32, seq<byte>>, expected: u32, rawLen: u32)
      returns (complete: bool, raw: seq<byte>, partial: seq<byte>, missing: seq<u32>)
      ensures missing == Missing(chunks, expected)
      ensures complete == Reassembled(chunks, expected, rawLen).Some?
      ensures raw == if complete then Reassembled(chunks, expected, rawLen).value else []
      ensures partial == if complete then [] else Join(chunks, Ascending(chunks.Keys))
    {
      missing := Missing(chunks, expected);
      complete := expected > 0 && rawLen > 0 && missing == [];
      raw, partial := [], [];
      if complete {
        assert forall k: u32 :: k < expected ==> k !in missing;
        raw := Truncated(JoinFirst(chunks, expected), rawLen);
        complete := |raw| == rawLen;
      }
      if !complete {
        raw := [];
        var keys := Sorted(chunks.Keys);
        partial := Join(chunks, keys);
      }
    }

    /** The jitter half of finalize_trial, once the raw half is done. */
    static method PackJitter(cfg: Config, t: Trial)
      returns (values: seq<u32>, ok: bool, delta: seq<byte>, residual: seq<byte>, us: int)
      ensures values == JitterValues(t.jitter)
      ensures ok <==> values == [] || !Unpackable(cfg, t, values)
      ensures ok ==> delta == PackLe32(values)
      ensures ok && values != [] ==> us == IntervalFor(cfg, t).value && residual == PackResiduals(values, us)
      ensures values == [] ==> residual == [] && us == 0
    {
      values := CollectJitter(t.jitter);
      ok, delta, residual, us := true, [], [], 0;
      if values != [] {
        ok := !Unpackable(cfg, t, values);
        if ok {
          us := IntervalFor(cfg, t).value;
          delta := PackLe32(values);
          residual := PackResiduals(values, us);
        }
      }
    }

    /** finalize_trial: the row, or what is left behind when packing raises. */
    static method FinalizeTrial(cfg: Config, key: Key, t: Trial, expected: u32, rawLen: u32) returns (out: Finalized)
      ensures out == Finalize(cfg, key, t, expected, rawLen)
    {
      var complete, raw, partial, missing := Reassemble(t.raw, expected, rawLen);
      var values, packed, delta, residual, intervalUs := PackJitter(cfg, t);
      if !packed {
        return Raised(raw);
      }
      var response := if complete then raw + delta else [];
      var rawDigest := if complete then CheckDigest(cfg, t, "raw_sha256", raw)
                       else if t.raw != map[] then Digest(cfg.sha256(partial), None)
                       else NO_DIGEST;
      var jitterDigest := if values != [] then CheckDigest(cfg, t, "jitter_sha256", delta) else NO_DIGEST;
      var responseDigest := if complete then CheckDigest(cfg, t, "response_sha256", response) else NO_DIGEST;
      out := Filed(Row(t.captureId, key, complete, raw, partial, expected, |t.raw|, missing, values, intervalUs,
                       delta, residual, response, rawDigest, jitterDigest, responseDigest,
                       t.result, t.intervalUs, t.helloNonce, t.startNonce));
    }

    /** The writes of finalize_trial. The raw bytes are appended even when the
        jitter cannot be packed; then nothing else is, and the exception ends
        the program. */
    method Append(out: Finalized)
      modifies this`rawAll, this`deltaAll, this`residualAll, this`jointAll, this`rows, this`status, this`completed
      ensures Outputs() == Appended(old(Outputs()), out)
    {
      match out
      case Raised(appended) =>
        rawAll := rawAll + appended;
        status := Crashed(appended);
      case Filed(row) =>
        rawAll := rawAll + row.raw;
        deltaAll := deltaAll + row.delta;
        residualAll := residualAll + row.residual;
        jointAll := jointAll + row.response;
        rows := rows + [row];
        if row.complete {
          completed := completed + 1;
        }
    }

    /** send_stimulus up to the state it returns: START, then the bursts, each
        packed and sent in turn. A number that does not fit its field raises, as
        do a delay that cannot be slept and a datagram too long to send. */
    method SendStimulus(peer: Peer, m: Message, id: nat) returns (ok: bool)
      modifies this`sent
      ensures sent == old(sent) + Addressed(peer, StimulusSent(cfg, m, id))
      ensures ok == StimulusFits(cfg, m, id)
    {
      if !StartFits(cfg, m) {
        assert sent + [] == sent;
        return false;
      }
      var start := StartFor(cfg, m);
      sent := sent + [Sending(peer, MakeMessage(start))];
      SofarStarts(cfg, peer, m, id);
      if !cfg.DelayFits() {
        StartOnly(cfg, m, id);
        return false;
      }
      var k: u32 := 0;
      while k < start.seqOrCount
        invariant k <= start.seqOrCount && |BurstsSent(cfg, m, id, k)| == k
        invariant sent == old(sent) + Sofar(cfg, peer, m, id, k)
      {
        if !BurstFits(cfg, m, id, k) {
          SofarEnds(cfg, peer, m, id, k);
          return false;
        }
        SofarGrows(cfg, peer, m, id, k);
        sent := sent + [Sending(peer, MakeMessage(BurstFor(cfg, m, id, k)))];
        k := k + 1;
      }
      ok := true;
    }

    /** states[key] = state, with a fresh state. */
    method Adopt(key: Key, t: Trial)
      requires Valid()
      modifies this`states
      ensures Valid() && fresh(states.Values - old(states.Values))
      ensures Trials() == old(Trials())[key := t]
    {
      var state := new TrialState(t);
      states := states[key := state];
    }

    /** The HELLO branch's effect on the outputs and on the table. */
    lemma HelloApart(s: State, key: Key, m: Message, out: State, table: map<Key, Trial>)
      requires
        out == s.(states := map[], counter := s.counter + 1,
                  sent := s.sent + Addressed(key.peer, StimulusSent(cfg, m, s.counter)),
                  status := if StimulusFits(cfg, m, s.counter) then s.status else Crashed([]))
      requires
        table == if StimulusFits(cfg, m, s.counter) then s.states[key := NewTrial(cfg, m, s.counter)] else s.states
      ensures out.(states := table) == AebCollector.OnHello(cfg, s, key, m)
    {
    }

    /** Take the next capture id and send the stimulus for it. */
    method Announce(peer: Peer, m: Message) returns (id: nat, ok: bool)
      modifies this`counter, this`sent, this`status
      ensures id == old(counter) && ok == StimulusFits(cfg, m, id)
      ensures
        Outputs() == old(Outputs()).(counter := id + 1,
                                     sent := old(sent) + Addressed(peer, StimulusSent(cfg, m, id)),
                                     status := if ok then old(status) else Crashed([]))
    {
      id := counter;
      counter := counter + 1;
      ok := SendStimulus(peer, m, id);
      if !ok {
        status := Crashed([]);
      }
    }

    method OnHello(key: Key, m: Message)
      requires Valid() && status == Running
      modifies this
      ensures Valid() && fresh(states.Values - old(states.Values))
      ensures View() == AebCollector.OnHello(cfg, old(View()), key, m)
    {
      ghost var s0 := View();
      var id, ok := Announce(key.peer, m);
      assert Trials() == s0.states;
      if ok {
        Adopt(key, NewTrial(cfg, m, id));
      }
      HelloApart(s0, key, m, Outputs(), Trials());
    }

    /** states.pop(key) */
    method Drop(key: Key)
      requires Valid()
      modifies this`states
      ensures Valid() && states.Values <= old(states.Values)
      ensures Trials() == old(Trials()) - {key}
    {
      states := states - {key};
    }

    /** Appending to the outputs and updating the table are independent. */
    lemma OutputsApart(s: State, key: Key, t: Trial, out: Finalized, table: map<Key, Trial>)
      requires table == if out.Raised? then s.states[key := t] else s.states - {key}
      ensures Appended(s.(states := map[]), out).(states := table) == Concluded(s, key, t, out)
    {
    }

    /** Write the outcome and drop the trial, unless finalizing it raised. */
    method Conclude(key: Key, out: Finalized)
      requires Valid() && key in states
      modifies this
      ensures Valid() && states.Values <= old(states.Values)
      ensures View() == Concluded(old(View()), key, old(Trials()[key]), out)
    {
      ghost var s0, t := View(), Trials()[key];
      Append(out);
      assert Trials() == s0.states == s0.states[key := t];
      if out.Filed? {
        Drop(key);
      }
      OutputsApart(s0, key, t, out, Trials());
    }

    /** RAW_END's defaults, in the live state. */
    method CloseTrial(key: Key, m: Message)
      requires Valid() && key in states
      modifies states.Values
      ensures Valid() && Trials() == old(Trials())[key := AtEnd(old(Trials()[key]), m)]
    {
      ghost var was := Trials();
      states[key].Close(m);
      assert Trials()[key] == AtEnd(was[key], m);
      assert forall k :: k in states && k != key ==> Trials()[k] == was[k];
    }

    /** Finalize the live state as it stands and conclude the trial. */
    method FinishTrial(key: Key)
      requires Valid() && key in states && states[key].expected.Some? && states[key].rawLen.Some?
      modifies this
      ensures Valid() && states.Values <= old(states.Values)
      ensures
        var t := old(Trials()[key]);
        && t.expected.Some? && t.rawLen.Some?
        && View() == Concluded(old(View()), key, t, Finalize(cfg, key, t, t.expected.value, t.rawLen.value))
    {
      var state := states[key];
      assert state.Value() == Trials()[key];
      var out := FinalizeTrial(cfg, key, state.Value(), state.expected.value, state.rawLen.value);
      Conclude(key, out);
    }

    method OnEnd(key: Key, m: Message)
      requires Valid() && status == Running && key in states
      modifies this, states.Values
      ensures Valid() && states.Values <= old(states.Values)
      ensures View() == File(cfg, old(View()), key, AtEnd(old(Trials()[key]), m))
    {
      ghost var s0, t := View(), AtEnd(Trials()[key], m);
      CloseTrial(key, m);
      assert View() == s0.(states := s0.states[key := t]) && Trials()[key] == t;
      FinishTrial(key);
      ConcludedOverwrites(s0, key, t, Finalize(cfg, key, t, t.expected.value, t.rawLen.value));
    }

    /** Concluding does not depend on what the table held for the trial before. */
    lemma ConcludedOverwrites(s: State, key: Key, t: Trial, out: Finalized)
      ensures Concluded(s.(states := s.states[key := t]), key, t, out) == Concluded(s, key, t, out)
    {
      assert s.states[key := t] - {key} == s.states - {key};
      assert s.states[key := t][key := t] == s.states[key := t];
    }

    /** One datagram that is not a result line. */
    method OnDatagram(key: Key, m: Message)
      requires Valid() && status == Running
      modifies this, states.Values
      ensures Valid() && fresh(states.Values - old(states.Values))
      ensures View() == OnMessage(cfg, old(View()), key, m)
    {
      if m.kind == HELLO {
        OnHello(key, m);
      } else if key in states {
        if m.kind == RAW_END {
          OnEnd(key, m);
        } else {
          states[key].Take(m);
          assert Trials() == old(Trials())[key := Absorb(old(Trials())[key], m)];
        }
      }
    }

    /** A result line for a live trial. */
    method Note(key: Key, fields: map<string, string>)
      requires Valid() && key in states
      modifies states.Values
      ensures Valid() && Trials() == old(Trials())[key := NoteResult(old(Trials()[key]), fields)]
    {
      var state := states[key];
      state.result := state.result + fields;
    }

    /** A datagram as it was received. */
    method OnData(peer: Peer, data: seq<byte>)
      requires Valid() && status == Running
      modifies this, states.Values
      ensures Valid() && fresh(states.Values - old(states.Values))
      ensures View() == AebCollector.OnData(cfg, old(View()), peer, data)
    {
      var line := cfg.ResultLineOf(data);
      match line
      case BadTrial =>
        status := Crashed([]);
        assert Trials() == old(Trials());
      case Result(trial, fields) =>
        var key := Key(peer, trial);
        if key in states {
          Note(key, fields);
        }
      case NotResult =>
        var parsed := ParseMessage(data);
        if parsed.Some? {
          OnDatagram(Key(peer, parsed.value.trial), parsed.value);
        }
    }

    /** One turn of the receive loop. */
    method Turn(e: Event)
      requires Valid()
      modifies this, states.Values
      ensures Valid() && fresh(states.Values - old(states.Values))
      ensures View() == Step(cfg, old(View()), e)
    {
      if status != Running || completed >= cfg.target {
        return;
      }
      match e
      case Timeout(idle) =>
        if idle {
          status := Stopped;
          assert Trials() == old(Trials());
        }
      case Datagram(peer, wire) =>
        OnData(peer, Truncated(wire, RECV_LIMIT));
    }

    /** The while loop over whatever the socket delivers. */
    method Serve(events: seq<Event>)
      requires Valid()
      modifies this, states.Values
      ensures Valid() && View() == Run(cfg, old(View()), events)
    {
      var i := 0;
      while i < |events|
        invariant 0 <= i <= |events| && Valid() && fresh(states.Values - old(states.Values))
        invariant Run(cfg, View(), events[i..]) == Run(cfg, old(View()), events)
      {
        Turn(events[i]);
        assert events[i..][1..] == events[i + 1..];
        i := i + 1;
      }
    }
  }
}
