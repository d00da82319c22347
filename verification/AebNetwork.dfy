/** The messages of one upload on a network that drops, duplicates and reorders
    them and mixes them with any other traffic: what the collector holds. Here an
    upload is just its lists of chunk payloads. */
module AebNetwork {
  import opened Bytes
  import opened AebMessage
  import opened AebCollector
  import opened AebCollectorRun
  import opened AebRow

  const PAYLOAD_LIMIT := RECV_LIMIT - HEADER_LEN

  datatype Plan = Plan(key: Key, start: Message, rawLen: u32, raw: seq<seq<byte>>, jitter: seq<seq<byte>>)
  {
    ghost predicate Valid() {
      && key.trial == start.trial
      && |raw| < U32_LIMIT && |jitter| < U32_LIMIT
      && (forall i :: 0 <= i < |raw| ==> |raw[i]| < U32_LIMIT)
      && (forall j :: 0 <= j < |jitter| ==> |jitter[j]| < U32_LIMIT)
    }

    function Make(kind: u16, count: u32, size: u32, payload: seq<byte>): Message {
      Message(kind, start.trial, count, start.intervalUs, size, start.nonce, payload)
    }

    function End(): Message
      requires Valid()
    {
      Make(RAW_END, |raw|, rawLen, [])
    }

    function Begin(): Message
      requires Valid()
    {
      Make(RAW_BEGIN, |raw|, rawLen, [])
    }

    function RawPart(i: u32): Message
      requires Valid() && i < |raw|
    {
      Make(RAW_CHUNK, i, |raw[i]|, raw[i])
    }

    function JitterPart(j: u32): Message
      requires Valid() && j < |jitter|
    {
      Make(JITTER_CHUNK, j, |jitter[j]|, jitter[j])
    }
  }

  /** What reaches the collector: a copy of one of the upload's messages before
      its RAW_END, or some other datagram or timeout. */
  datatype Delivery = BeginCopy | RawCopy(i: u32) | JitterCopy(j: u32) | Other(event: Event)

  ghost predicate OfPlan(p: Plan, d: Delivery) {
    d.BeginCopy? || (d.RawCopy? && d.i < |p.raw|) || (d.JitterCopy? && d.j < |p.jitter|)
  }

  function MessageOf(p: Plan, d: Delivery): Message
    requires p.Valid() && OfPlan(p, d)
  {
    match d
    case BeginCopy => p.Begin()
    case RawCopy(i) => p.RawPart(i)
    case JitterCopy(j) => p.JitterPart(j)
  }

  /** Anything but this upload's RAW_END and foreign messages forged under its
      key. Result lines of the trial itself are welcome. */
  ghost predicate Admissible(cfg: Config, p: Plan, d: Delivery) {
    OfPlan(p, d)
    || (d.Other? && (!Touches(cfg, p.key, d.event)
                     || (d.event.Datagram? && cfg.ResultLineOf(Truncated(d.event.wire, RECV_LIMIT)).Result?)))
  }

  ghost function EventOf(p: Plan, d: Delivery): Event
    requires p.Valid() && (OfPlan(p, d) || d.Other?)
  {
    if d.Other? then d.event else Datagram(p.key.peer, MakeMessage(MessageOf(p, d)))
  }

  ghost function EventsOf(cfg: Config, p: Plan, ds: seq<Delivery>): seq<Event>
    requires p.Valid() && forall d :: d in ds ==> Admissible(cfg, p, d)
  {
    if ds == [] then [] else
      assert Admissible(cfg, p, ds[|ds| - 1]);
      EventsOf(cfg, p, ds[..|ds| - 1]) + [EventOf(p, ds[|ds| - 1])]
  }

  /** Indices of the raw chunks of which at least one copy was delivered. */
  ghost function RawArrived(p: Plan, ds: seq<Delivery>): set<u32> {
    set i: u32 | i < |p.raw| && RawCopy(i) in ds
  }

  ghost function JitterArrived(p: Plan, ds: seq<Delivery>): set<u32> {
    set j: u32 | j < |p.jitter| && JitterCopy(j) in ds
  }

  /** Exactly the chunks that arrived are kept, each as the receive cut it. */
  ghost predicate Keeps(kept: map<u32, seq<byte>>, arrived: set<u32>, payloads: seq<seq<byte>>) {
    && kept.Keys == arrived
    && forall i :: i in kept ==> i < |payloads| && kept[i] == Truncated(payloads[i], PAYLOAD_LIMIT)
  }

  /** The trial holds exactly what was delivered of the upload. */
  ghost predicate Holds(p: Plan, t0: Trial, t: Trial, ds: seq<Delivery>) {
    && t.captureId == t0.captureId && t.intervalUs == t0.intervalUs
    && (t.expected == None || t.expected == Some(|p.raw|))
    && (t.rawLen == None || t.rawLen == Some(p.rawLen))
    && Keeps(t.raw, RawArrived(p, ds), p.raw)
    && Keeps(t.jitter, JitterArrived(p, ds), p.jitter)
  }

  /** A live trial right after its HELLO. */
  predicate Fresh(t: Trial) {
    t.expected.None? && t.rawLen.None? && t.raw == map[] && t.jitter == map[] && t.result == map[]
  }

  lemma {:induction false} RunAppend(cfg: Config, s: State, es: seq<Event>, e: Event)
    ensures Run(cfg, s, es + [e]) == Step(cfg, Run(cfg, s, es), e)
    decreases |es|
  {
    if es == [] {
      assert Run(cfg, s, [e]) == Run(cfg, Step(cfg, s, e), [e][1..]);
    } else {
      assert (es + [e])[1..] == es[1..] + [e];
      RunAppend(cfg, Step(cfg, s, es[0]), es[1..], e);
    }
  }

  lemma LiveBefore(cfg: Config, s: State, es: seq<Event>, e: Event)
    requires Live(cfg, Run(cfg, s, es + [e]))
    ensures Live(cfg, Run(cfg, s, es)) && Run(cfg, s, es + [e]) == Step(cfg, Run(cfg, s, es), e)
  {
    RunAppend(cfg, s, es, e);
  }

  /** A well-formed message is never taken for a result line, and truncation by
      the receive buffer only shortens its payload. */
  lemma MessageStep(cfg: Config, s: State, peer: Peer, m: Message)
    requires cfg.Sound() && Live(cfg, s)
    ensures Step(cfg, s, Datagram(peer, MakeMessage(m)))
         == OnMessage(cfg, s, Key(peer, m.trial), m.(payload := Truncated(m.payload, PAYLOAD_LIMIT)))
  {
    ParseOfMake(m, RECV_LIMIT);
    FirstByteIsA(Truncated(MakeMessage(m), RECV_LIMIT));
    NoResultLine(cfg, Truncated(MakeMessage(m), RECV_LIMIT));
  }

  lemma OursStep(cfg: Config, p: Plan, s: State, d: Delivery)
    requires cfg.Sound() && p.Valid() && Live(cfg, s) && p.key in s.states && OfPlan(p, d)
    ensures
      var m := MessageOf(p, d);
      Step(cfg, s, EventOf(p, d))
      == s.(states := s.states[p.key := Absorb(s.states[p.key], m.(payload := Truncated(m.payload, PAYLOAD_LIMIT)))])
  {
    MessageStep(cfg, s, p.key.peer, MessageOf(p, d));
  }

  lemma EndStep(cfg: Config, p: Plan, s: State)
    requires cfg.Sound() && p.Valid() && Live(cfg, s) && p.key in s.states
    ensures Step(cfg, s, Datagram(p.key.peer, MakeMessage(p.End())))
         == File(cfg, s, p.key, AtEnd(s.states[p.key], p.End()))
  {
    MessageStep(cfg, s, p.key.peer, p.End());
    assert p.End().(payload := Truncated([], PAYLOAD_LIMIT)) == p.End();
  }

  lemma ArrivedSnoc(p: Plan, ds: seq<Delivery>, d: Delivery)
    requires p.Valid() && OfPlan(p, d)
    ensures RawArrived(p, ds + [d]) == RawArrived(p, ds) + if d.RawCopy? then {d.i} else {}
    ensures JitterArrived(p, ds + [d]) == JitterArrived(p, ds) + if d.JitterCopy? then {d.j} else {}
  {
    assert forall x :: x in ds + [d] <==> x in ds || x == d;
  }

  /** One more chunk. */
  lemma KeepsMore(kept: map<u32, seq<byte>>, arrived: set<u32>, payloads: seq<seq<byte>>, i: u32)
    requires Keeps(kept, arrived, payloads) && i < |payloads|
    ensures Keeps(kept[i := Truncated(payloads[i], PAYLOAD_LIMIT)], arrived + {i}, payloads)
  {
  }

  lemma NoMore(arrived: set<u32>)
    ensures arrived + {} == arrived
  {
  }

  lemma AbsorbKeepsHolds(p: Plan, t0: Trial, t: Trial, ds: seq<Delivery>, d: Delivery)
    requires p.Valid() && Holds(p, t0, t, ds) && OfPlan(p, d)
    ensures
      var m := MessageOf(p, d);
      Holds(p, t0, Absorb(t, m.(payload := Truncated(m.payload, PAYLOAD_LIMIT))), ds + [d])
  {
    ArrivedSnoc(p, ds, d);
    NoMore(RawArrived(p, ds));
    NoMore(JitterArrived(p, ds));
    match d
    case BeginCopy =>
    case RawCopy(i) => KeepsMore(t.raw, RawArrived(p, ds), p.raw, i);
    case JitterCopy(j) => KeepsMore(t.jitter, JitterArrived(p, ds), p.jitter, j);
  }

  /** Other traffic leaves the trial's chunks and counts alone. */
  lemma OtherKeepsHolds(cfg: Config, p: Plan, t0: Trial, s: State, ds: seq<Delivery>, e: Event)
    requires p.key in s.states && Holds(p, t0, s.states[p.key], ds) && Admissible(cfg, p, Other(e))
    ensures p.key in Step(cfg, s, e).states && Holds(p, t0, Step(cfg, s, e).states[p.key], ds + [Other(e)])
  {
    assert forall x :: x in ds + [Other(e)] <==> x in ds || x == Other(e);
    assert RawArrived(p, ds + [Other(e)]) == RawArrived(p, ds);
    assert JitterArrived(p, ds + [Other(e)]) == JitterArrived(p, ds);
    if !Touches(cfg, p.key, e) {
      OthersLeaveItAlone(cfg, s, p.key, e);
    } else {
      var t, n := s.states[p.key], Step(cfg, s, e).states[p.key];
      assert n == n.(result := t.result).(result := n.result);
      assert n.(result := t.result) == t;
    }
  }

  /** The live trial of the key holds what was delivered. */
  ghost predicate Collects(p: Plan, t0: Trial, n: State, ds: seq<Delivery>) {
    p.key in n.states && Holds(p, t0, n.states[p.key], ds)
  }

  /** One delivery: what arrived so far is held, and then what arrived with it. */
  lemma DeliveryKeepsHolds(cfg: Config, p: Plan, t0: Trial, s: State, init: seq<Delivery>, d: Delivery,
                           ds: seq<Delivery>, n: State)
    requires cfg.Sound() && p.Valid() && Live(cfg, s) && Admissible(cfg, p, d) && Collects(p, t0, s, init)
    requires ds == init + [d] && n == Step(cfg, s, EventOf(p, d))
    ensures Collects(p, t0, n, ds)
  {
    if d.Other? {
      OtherKeepsHolds(cfg, p, t0, s, init, d.event);
    } else {
      OursStep(cfg, p, s, d);
      AbsorbKeepsHolds(p, t0, s.states[p.key], init, d);
    }
  }

  /** The events of the last delivery and of those before it. */
  lemma EventsUnsnoc(cfg: Config, p: Plan, ds: seq<Delivery>, init: seq<Delivery>, d: Delivery)
    requires p.Valid() && ds == init + [d] && forall a :: a in ds ==> Admissible(cfg, p, a)
    ensures Admissible(cfg, p, d) && forall a :: a in init ==> Admissible(cfg, p, a)
    ensures EventsOf(cfg, p, ds) == EventsOf(cfg, p, init) + [EventOf(p, d)]
  {
    assert ds[..|ds| - 1] == init;
    assert d in ds && forall a :: a in init ==> a in ds;
  }

  lemma NothingHeld(p: Plan, t: Trial)
    requires p.Valid() && Fresh(t)
    ensures Holds(p, t, t, [])
  {
    assert RawArrived(p, []) == {} && JitterArrived(p, []) == {};
  }

  lemma {:induction false} CollectsInto(cfg: Config, p: Plan, t0: Trial, s: State, ds: seq<Delivery>, es: seq<Event>,
                                        n: State)
    requires cfg.Sound() && p.Valid() && p.key in s.states && t0 == s.states[p.key] && Fresh(t0)
    requires (forall d :: d in ds ==> Admissible(cfg, p, d)) && es == EventsOf(cfg, p, ds)
    requires n == Run(cfg, s, es) && Live(cfg, n)
    ensures Collects(p, t0, n, ds)
    decreases |ds|
  {
    if ds == [] {
      NothingHeld(p, t0);
    } else {
      var init, d := ds[..|ds| - 1], ds[|ds| - 1];
      Unsnoc(ds);
      EventsUnsnoc(cfg, p, ds, init, d);
      var past := EventsOf(cfg, p, init);
      var before := Run(cfg, s, past);
      LiveBefore(cfg, s, past, EventOf(p, d));
      CollectsInto(cfg, p, t0, s, init, past, before);
      DeliveryKeepsHolds(cfg, p, t0, before, init, d, ds, n);
    }
  }

  /** Throughout an upload the live trial holds exactly what has arrived, no
      matter the order, the copies and the traffic in between. */
  lemma CollectsWhatArrives(cfg: Config, p: Plan, s: State, ds: seq<Delivery>)
    requires cfg.Sound() && p.Valid() && p.key in s.states && Fresh(s.states[p.key])
    requires forall d :: d in ds ==> Admissible(cfg, p, d)
    requires Live(cfg, Run(cfg, s, EventsOf(cfg, p, ds)))
    ensures Collects(p, s.states[p.key], Run(cfg, s, EventsOf(cfg, p, ds)), ds)
  {
    CollectsInto(cfg, p, s.states[p.key], s, ds, EventsOf(cfg, p, ds), Run(cfg, s, EventsOf(cfg, p, ds)));
  }

  /** From s to n the trial was finalized: it raised, or filed this row. */
  ghost predicate Outcome(cfg: Config, s: State, n: State, key: Key, t: Trial)
    requires t.expected.Some? && t.rawLen.Some?
  {
    var values := JitterValues(t.jitter);
    (n.status.Crashed? <==> values != [] && Unpackable(cfg, t, values))
    && (!n.status.Crashed? ==>
      && key !in n.states && |n.rows| == |s.rows| + 1 && s.rows <= n.rows
      && FiledRow(cfg, n.rows[|s.rows|], key, t)
      && n.completed == s.completed + (if n.rows[|s.rows|].complete then 1 else 0))
  }

  ghost predicate FiledRow(cfg: Config, row: Row, key: Key, t: Trial)
    requires t.expected.Some? && t.rawLen.Some?
  {
    var found := Reassembled(t.raw, t.expected.value, t.rawLen.value);
    && row.key == key && row.captureId == t.captureId && row.jitters == JitterValues(t.jitter)
    && row.complete == found.Some? && row.reported == t.result && row.chunksSeen == |t.raw|
    && (row.complete ==>
          && row.raw == found.value && row.response == found.value + PackLe32(row.jitters)
          && row.responseDigest == CheckDigest(cfg, t, "response_sha256", row.response))
  }

  lemma FileOutcome(cfg: Config, s: State, key: Key, t: Trial)
    requires s.status == Running && t.expected.Some? && t.rawLen.Some?
    ensures Outcome(cfg, s, File(cfg, s, key, t), key, t)
  {
  }

  /** The trial as finalize_trial sees it. */
  function AtFiling(p: Plan, before: State): Trial
    requires p.Valid() && p.key in before.states
  {
    AtEnd(before.states[p.key], p.End())
  }

  ghost function AfterEnd(cfg: Config, p: Plan, before: State): State
    requires p.Valid()
  {
    Step(cfg, before, Datagram(p.key.peer, MakeMessage(p.End())))
  }

  /** RAW_END only supplies counts that the trial lacks. */
  lemma EndKeepsHolds(p: Plan, t0: Trial, t: Trial, ds: seq<Delivery>)
    requires p.Valid() && Holds(p, t0, t, ds)
    ensures
      var e := AtEnd(t, p.End());
      Holds(p, t0, e, ds) && e.result == t.result
      && e.expected == Some(|p.raw|) && e.rawLen == Some(p.rawLen)
  {
  }

  /** What becomes of a trial when its RAW_END reaches a running collector. */
  lemma UploadOutcome(cfg: Config, p: Plan, s: State, ds: seq<Delivery>, before: State)
    requires cfg.Sound() && p.Valid() && p.key in s.states && Fresh(s.states[p.key])
    requires forall d :: d in ds ==> Admissible(cfg, p, d)
    requires before == Run(cfg, s, EventsOf(cfg, p, ds)) && Live(cfg, before)
    ensures p.key in before.states
    ensures
      var t := AtFiling(p, before);
      && Holds(p, s.states[p.key], t, ds) && t.result == before.states[p.key].result
      && t.expected == Some(|p.raw|) && t.rawLen == Some(p.rawLen)
      && Outcome(cfg, before, AfterEnd(cfg, p, before), p.key, t)
  {
    CollectsWhatArrives(cfg, p, s, ds);
    EndKeepsHolds(p, s.states[p.key], before.states[p.key], ds);
    EndStep(cfg, p, before);
    FileOutcome(cfg, before, p.key, AtFiling(p, before));
  }

  /** A filed row's columns. */
  lemma FileColumns(cfg: Config, s: State, key: Key, t: Trial)
    requires s.status == Running && t.expected.Some? && t.rawLen.Some?
    requires !File(cfg, s, key, t).status.Crashed?
    ensures |File(cfg, s, key, t).rows| == |s.rows| + 1
    ensures Columns(cfg, key, t, t.expected.value, t.rawLen.value, File(cfg, s, key, t).rows[|s.rows|])
  {
    var out := Finalize(cfg, key, t, t.expected.value, t.rawLen.value);
    RowColumns(cfg, key, t, t.expected.value, t.rawLen.value, out.row);
  }

  lemma UploadColumns(cfg: Config, p: Plan, s: State, ds: seq<Delivery>, before: State)
    requires cfg.Sound() && p.Valid() && p.key in s.states && Fresh(s.states[p.key])
    requires forall d :: d in ds ==> Admissible(cfg, p, d)
    requires before == Run(cfg, s, EventsOf(cfg, p, ds)) && Live(cfg, before)
    requires !AfterEnd(cfg, p, before).status.Crashed?
    ensures p.key in before.states && |AfterEnd(cfg, p, before).rows| == |before.rows| + 1
    ensures Columns(cfg, p.key, AtFiling(p, before), |p.raw|, p.rawLen, AfterEnd(cfg, p, before).rows[|before.rows|])
  {
    CollectsWhatArrives(cfg, p, s, ds);
    EndKeepsHolds(p, s.states[p.key], before.states[p.key], ds);
    EndStep(cfg, p, before);
    FileColumns(cfg, before, p.key, AtFiling(p, before));
  }

  // ---- after the first RAW_END ----

  /** A further copy of any of the upload's messages, its RAW_END included, or
      other traffic. */
  ghost predicate LateEvent(cfg: Config, p: Plan, e: Event)
    requires p.Valid()
  {
    || e == Datagram(p.key.peer, MakeMessage(p.End()))
    || exists d :: Admissible(cfg, p, d) && e == EventOf(p, d)
  }

  /** From s to n the key stays gone and gets no row. */
  ghost predicate StaysGone(s: State, n: State, key: Key) {
    key !in n.states && s.rows <= n.rows && forall i :: |s.rows| <= i < |n.rows| ==> n.rows[i].key != key
  }

  /** Only a HELLO makes a trial. */
  lemma NoTrialNoEffect(cfg: Config, s: State, peer: Peer, m: Message)
    requires cfg.Sound() && m.kind != HELLO && Key(peer, m.trial) !in s.states
    ensures Step(cfg, s, Datagram(peer, MakeMessage(m))) == s
  {
    if Live(cfg, s) {
      MessageStep(cfg, s, peer, m);
    }
  }

  lemma OtherLateStep(cfg: Config, p: Plan, s: State, e: Event)
    requires p.key !in s.states && Admissible(cfg, p, Other(e))
    ensures StaysGone(s, Step(cfg, s, e), p.key)
  {
    if !Touches(cfg, p.key, e) {
      OthersLeaveItAlone(cfg, s, p.key, e);
    }
  }

  lemma LateStep(cfg: Config, p: Plan, s: State, e: Event)
    requires cfg.Sound() && p.Valid() && p.key !in s.states && LateEvent(cfg, p, e)
    ensures StaysGone(s, Step(cfg, s, e), p.key)
  {
    if e == Datagram(p.key.peer, MakeMessage(p.End())) {
      NoTrialNoEffect(cfg, s, p.key.peer, p.End());
    } else {
      var d :| Admissible(cfg, p, d) && e == EventOf(p, d);
      if OfPlan(p, d) {
        NoTrialNoEffect(cfg, s, p.key.peer, MessageOf(p, d));
      } else {
        OtherLateStep(cfg, p, s, e);
      }
    }
  }

  /** Whatever copies of an upload still arrive once its trial is gone, nothing
      brings the trial back and no row is filed for it. */
  lemma {:induction false} LateCopiesChangeNothing(cfg: Config, p: Plan, s: State, events: seq<Event>)
    requires cfg.Sound() && p.Valid() && p.key !in s.states
    requires forall k :: 0 <= k < |events| ==> LateEvent(cfg, p, events[k])
    ensures StaysGone(s, Run(cfg, s, events), p.key)
    decreases |events|
  {
    if events != [] {
      var n := Step(cfg, s, events[0]);
      LateStep(cfg, p, s, events[0]);
      LateCopiesChangeNothing(cfg, p, n, events[1..]);
    }
  }
}
