/** The device's trial and the collector together: the handshake in both
    directions, and what a filed row says about the trial that was measured. */
module AebEndToEnd {
  import opened Bytes
  import opened HexText
  import opened PyText
  import opened AebMessage
  import opened AebUpload
  import opened AebTrial
  import opened AebReport
  import opened AebStart
  import opened AebCollector
  import opened AebCollectorRun
  import opened AebNetwork
  import opened AebLossyUpload

  // ---- the stimulus reaches the client ----

  /** The START that answers a HELLO ends the client's wait for it, with the
      numbers that the collector chose. */
  lemma StartIsAccepted(cfg: Config, m: Message, t: AebStart.Turn)
    requires StartFits(cfg, m) && t.poll == Got(MakeMessage(StartFor(cfg, m)))
    ensures IsStart(m.trial, t)
    ensures ParseMessage(Truncated(t.poll.data, RECV_BUF_LEN)) == Some(StartFor(cfg, m))
  {
    ParseOfMake(StartFor(cfg, m), RECV_BUF_LEN);
  }

  /** Every BURST of the stimulus counts for the trial, whatever its payload. */
  lemma BurstIsAccepted(cfg: Config, m: Message, id: nat, k: u32, at: nat)
    requires StartFits(cfg, m) && BurstFits(cfg, m, id, k)
    ensures Matches(m.trial, Packet(MakeMessage(BurstFor(cfg, m, id, k)), at))
  {
    ParseOfMake(BurstFor(cfg, m, id, k), RECV_BUF_LEN);
  }

  lemma {:induction false} AllMatching(trial: u32, arrivals: seq<Arrival>, n: nat)
    requires forall k :: 0 <= k < |arrivals| ==> Matches(trial, arrivals[k])
    ensures |Accepted(trial, arrivals, n)| == Min(n, |arrivals|)
  {
    if n > 0 && arrivals != [] {
      assert forall k :: 0 <= k < |arrivals[1..]| ==> arrivals[1..][k] == arrivals[k + 1];
      AllMatching(trial, arrivals[1..], n - 1);
    }
  }

  /** A stimulus that arrives in full is counted in full: the trial it starts
      sees every burst it expects. */
  lemma StimulusIsCounted(cfg: Config, m: Message, id: nat, lim: Limits, arrivals: seq<Arrival>, at: seq<nat>)
    requires StartFits(cfg, m) && |arrivals| == |at| == StartFor(cfg, m).seqOrCount
    requires forall k: u32 :: k < |arrivals| ==>
               && BurstFits(cfg, m, id, k)
               && arrivals[k] == Packet(MakeMessage(BurstFor(cfg, m, id, k)), at[k])
    ensures
      var expected := Min(StartFor(cfg, m).seqOrCount, lim.maxBursts);
      |Accepted(m.trial, arrivals, expected)| == expected
  {
    forall k | 0 <= k < |arrivals|
      ensures Matches(m.trial, arrivals[k])
    {
      BurstIsAccepted(cfg, m, id, k, at[k]);
    }
    AllMatching(m.trial, arrivals, Min(StartFor(cfg, m).seqOrCount, lim.maxBursts));
  }

  // ---- a trial's datagrams as deliveries ----

  function SessionOf(peer: Peer, c: ClientConfig, start: Message, raw: seq<byte>, deltas: seq<u32>): Session {
    Session(Key(peer, start.trial), start, c.chunk, raw, deltas)
  }

  function UploadWire(x: Session): seq<seq<byte>>
    requires x.Valid()
  {
    Wire(Upload(x.start, x.chunk, x.raw, x.deltas))
  }

  /** What a trial puts on its socket: HELLOs, its report, its upload. */
  ghost predicate OfTrial(x: Session, hello: Message, r: Report, sent: seq<seq<byte>>)
    requires x.Valid()
  {
    && hello.kind == HELLO && hello.trial == x.key.trial == r.trial && Bounded(r)
    && forall w :: w in sent ==> w == MakeMessage(hello) || w == ReportWire(r) || w in UploadWire(x)
  }

  /** What may reach the collector before the trial's RAW_END: a copy of any
      datagram that left the socket, or other traffic. */
  ghost predicate Carried(cfg: Config, x: Session, sent: seq<seq<byte>>, e: Event)
    requires x.Valid()
  {
    || (e.Datagram? && e.peer == x.key.peer && e.wire in sent && e.wire != MakeMessage(PlanOf(x).End()))
    || Admissible(cfg, PlanOf(x), Other(e))
  }

  predicate IsHello(x: Session, hello: Message, e: Event) {
    e == Datagram(x.key.peer, MakeMessage(hello))
  }

  /** Events behind the last HELLO: copies of the trial's other datagrams, and
      other traffic. */
  ghost predicate Quiet(cfg: Config, x: Session, hello: Message, sent: seq<seq<byte>>, es: seq<Event>)
    requires x.Valid()
  {
    forall k :: 0 <= k < |es| ==> Carried(cfg, x, sent, es[k]) && !IsHello(x, hello, es[k])
  }

  lemma QuietSnoc(cfg: Config, x: Session, hello: Message, sent: seq<seq<byte>>, es: seq<Event>, init: seq<Event>,
                  e: Event)
    requires x.Valid() && Quiet(cfg, x, hello, sent, es) && es == init + [e]
    ensures Quiet(cfg, x, hello, sent, init) && Carried(cfg, x, sent, e) && !IsHello(x, hello, e)
  {
    assert forall k :: 0 <= k < |init| ==> init[k] == es[k];
    assert es[|init|] == e;
  }

  /** The delivery that a copy of message i of the plan is. */
  function DeliveryAt(p: Plan, i: nat): (d: Delivery)
    requires p.Valid() && i <= |p.raw| + |p.jitter|
    ensures OfPlan(p, d)
  {
    if i == 0 then BeginCopy
    else if i <= |p.raw| then RawCopy(i - 1)
    else JitterCopy(i - 1 - |p.raw|)
  }

  lemma UploadAt(x: Session, i: nat)
    requires x.Valid()
    ensures |Upload(x.start, x.chunk, x.raw, x.deltas)| == |PlanOf(x).raw| + |PlanOf(x).jitter| + 2
    ensures
      var p, msgs := PlanOf(x), Upload(x.start, x.chunk, x.raw, x.deltas);
      && (i <= |p.raw| + |p.jitter| ==> msgs[i] == MessageOf(p, DeliveryAt(p, i)))
      && (i == |p.raw| + |p.jitter| + 1 ==> msgs[i] == p.End())
  {
    PlanIsUpload(x);
  }

  /** Every datagram of an upload is one of its plan's messages. */
  lemma WireIsPlanned(x: Session, wire: seq<byte>) returns (d: Delivery)
    requires x.Valid() && wire in UploadWire(x) && wire != MakeMessage(PlanOf(x).End())
    ensures OfPlan(PlanOf(x), d) && wire == MakeMessage(MessageOf(PlanOf(x), d))
  {
    var i: nat :| i < |UploadWire(x)| && UploadWire(x)[i] == wire;
    UploadAt(x, i);
    d := DeliveryAt(PlanOf(x), i);
  }

  lemma SameWire(a: Message, b: Message)
    requires MakeMessage(a) == MakeMessage(b)
    ensures a == b
  {
    ParseOfMake(a, HEADER_LEN);
    ParseOfMake(b, HEADER_LEN);
  }

  /** Different deliveries of the plan are different datagrams. */
  lemma WireNames(p: Plan, a: Delivery, b: Delivery)
    requires p.Valid() && OfPlan(p, a) && OfPlan(p, b) && EventOf(p, a) == EventOf(p, b)
    ensures a == b
  {
    SameWire(MessageOf(p, a), MessageOf(p, b));
  }

  /** A message is received as itself, and as no result line. */
  lemma MessageComes(cfg: Config, m: Message, data: seq<byte>)
    requires cfg.Sound() && data == Truncated(MakeMessage(m), RECV_LIMIT)
    ensures cfg.ResultLineOf(data) == NotResult
    ensures ParseMessage(data).Some? && ParseMessage(data).value.trial == m.trial
  {
    ParseOfMake(m, RECV_LIMIT);
    FirstByteIsA(data);
    NoResultLine(cfg, data);
  }

  lemma MessageTouches(cfg: Config, key: Key, m: Message, e: Event)
    requires cfg.Sound() && m.trial == key.trial && e == Datagram(key.peer, MakeMessage(m))
    ensures Touches(cfg, key, e) && cfg.ResultLineOf(Truncated(e.wire, RECV_LIMIT)) == NotResult
  {
    MessageComes(cfg, m, Truncated(MakeMessage(m), RECV_LIMIT));
  }

  lemma OursAreNotOther(cfg: Config, p: Plan, e: Event)
    requires e.Datagram? && Touches(cfg, p.key, e) && cfg.ResultLineOf(Truncated(e.wire, RECV_LIMIT)) == NotResult
    ensures !Admissible(cfg, p, Other(e))
  {
  }

  /** A message of the plan touches its trial and is no result line. */
  lemma PlannedIsOurs(cfg: Config, p: Plan, d: Delivery)
    requires cfg.Sound() && p.Valid() && OfPlan(p, d)
    ensures !Admissible(cfg, p, Other(EventOf(p, d)))
  {
    var e := EventOf(p, d);
    MessageTouches(cfg, p.key, MessageOf(p, d), e);
    OursAreNotOther(cfg, p, e);
  }

  lemma OtherIsNotPlanned(cfg: Config, p: Plan, e: Event)
    requires cfg.Sound() && p.Valid() && Admissible(cfg, p, Other(e))
    ensures forall b :: OfPlan(p, b) ==> EventOf(p, b) != e
  {
    forall b | OfPlan(p, b)
      ensures EventOf(p, b) != e
    {
      PlannedIsOurs(cfg, p, b);
    }
  }

  lemma ReportIsAdmissible(cfg: Config, x: Session, r: Report)
    requires cfg.Sound() && x.Valid() && Bounded(r)
    ensures Admissible(cfg, PlanOf(x), Other(Datagram(x.key.peer, ReportWire(r))))
  {
    ReportComes(cfg, r);
  }

  lemma ReportComes(cfg: Config, r: Report)
    requires cfg.Sound() && Bounded(r)
    ensures cfg.ResultLineOf(Truncated(ReportWire(r), RECV_LIMIT)) == Result(r.trial, MapOf(ReportPairs(r)))
  {
    LineFits(r);
    ReportReadsBack(cfg, r);
    assert Truncated(ReportWire(r), RECV_LIMIT) == ReportWire(r);
  }

  /** Carried and no HELLO: one delivery, which is the plan's if the event is. */
  lemma EventExplained(cfg: Config, x: Session, hello: Message, r: Report, sent: seq<seq<byte>>, e: Event)
    returns (d: Delivery)
    requires cfg.Sound() && x.Valid() && OfTrial(x, hello, r, sent)
    requires Carried(cfg, x, sent, e) && !IsHello(x, hello, e)
    ensures Admissible(cfg, PlanOf(x), d) && EventOf(PlanOf(x), d) == e
    ensures forall b :: OfPlan(PlanOf(x), b) && EventOf(PlanOf(x), b) == e ==> b == d
  {
    var p := PlanOf(x);
    if Admissible(cfg, p, Other(e)) {
      d := Other(e);
      OtherIsNotPlanned(cfg, p, e);
    } else {
      if e.wire == ReportWire(r) {
        ReportIsAdmissible(cfg, x, r);
      }
      d := WireIsPlanned(x, e.wire);
      forall b | OfPlan(p, b) && EventOf(p, b) == e
        ensures b == d
      {
        WireNames(p, b, d);
      }
    }
  }

  /** The deliveries are these events, and those of the plan are exactly the ones
      whose datagram is among them. */
  ghost predicate Explains(cfg: Config, p: Plan, ds: seq<Delivery>, es: seq<Event>)
    requires p.Valid()
  {
    && (forall d :: d in ds ==> Admissible(cfg, p, d)) && EventsOf(cfg, p, ds) == es
    && forall b :: OfPlan(p, b) ==> (b in ds <==> EventOf(p, b) in es)
  }

  lemma ExplainsNothing(cfg: Config, p: Plan)
    requires p.Valid()
    ensures Explains(cfg, p, [], [])
  {
  }

  lemma EventsSnoc(cfg: Config, p: Plan, ds: seq<Delivery>, d: Delivery)
    requires p.Valid() && Admissible(cfg, p, d) && forall x :: x in ds ==> Admissible(cfg, p, x)
    ensures forall x :: x in ds + [d] ==> Admissible(cfg, p, x)
    ensures EventsOf(cfg, p, ds + [d]) == EventsOf(cfg, p, ds) + [EventOf(p, d)]
  {
    assert (ds + [d])[..|ds|] == ds;
  }

  lemma ExplainsSnoc(cfg: Config, p: Plan, ds: seq<Delivery>, es: seq<Event>, d: Delivery, e: Event)
    requires p.Valid() && Explains(cfg, p, ds, es) && Admissible(cfg, p, d) && EventOf(p, d) == e
    requires forall b :: OfPlan(p, b) && EventOf(p, b) == e ==> b == d
    ensures Explains(cfg, p, ds + [d], es + [e])
  {
    EventsSnoc(cfg, p, ds, d);
    forall b | OfPlan(p, b)
      ensures b in ds + [d] <==> EventOf(p, b) in es + [e]
    {
      assert b in ds + [d] <==> b in ds || b == d;
      assert EventOf(p, b) in es + [e] <==> EventOf(p, b) in es || EventOf(p, b) == e;
    }
  }

  /** Any such traffic is a sequence of deliveries. */
  lemma {:induction false} TrafficExplained(cfg: Config, x: Session, hello: Message, r: Report, sent: seq<seq<byte>>,
                                            es: seq<Event>)
    returns (ds: seq<Delivery>)
    requires cfg.Sound() && x.Valid() && OfTrial(x, hello, r, sent)
    requires Quiet(cfg, x, hello, sent, es)
    ensures Explains(cfg, PlanOf(x), ds, es)
  {
    ds := [];
    if es == [] {
      ExplainsNothing(cfg, PlanOf(x));
    } else {
      var init, e := es[..|es| - 1], es[|es| - 1];
      Unsnoc(es);
      QuietSnoc(cfg, x, hello, sent, es, init, e);
      ds := TrafficExplained(cfg, x, hello, r, sent, init);
      var d := EventExplained(cfg, x, hello, r, sent, e);
      ExplainsSnoc(cfg, PlanOf(x), ds, init, d, e);
      ds := ds + [d];
    }
  }

  lemma {:induction false} InCopies(w: seq<byte>, hello: seq<byte>, n: nat)
    requires w in Copies(hello, n)
    ensures w == hello
  {
    var i: nat :| i < n && Copies(hello, n)[i] == w;
  }

  /** What left the socket during a trial is of that trial. */
  lemma SentIsOfTrial(x: Session, hello: Message, r: Report, was: seq<seq<byte>>, room0: nat, before: seq<seq<byte>>,
                      room: nat, sent: seq<seq<byte>>, left: nat, ok: bool)
    requires x.Valid() && hello.kind == HELLO && hello.trial == x.key.trial == r.trial && Bounded(r)
    requires Announced(was, MakeMessage(hello), ReportWire(r), before, room0, room)
    requires Took(before, room, sent, left, UploadWire(x), ok)
    ensures |was| <= |sent| && OfTrial(x, hello, r, sent[|was|..])
  {
    var n, line := AnnouncedParts(was, MakeMessage(hello), ReportWire(r), before, room0, room);
    var part := UploadWire(x)[..Min(room, |UploadWire(x)|)];
    assert sent[|was|..] == Copies(MakeMessage(hello), n) + line + part;
    PartsOfTrial(x, hello, r, n, line, part, sent[|was|..]);
  }

  lemma AnnouncedParts(was: seq<seq<byte>>, hello: seq<byte>, report: seq<byte>, before: seq<seq<byte>>, room0: nat,
                       room: nat)
    returns (n: nat, line: seq<seq<byte>>)
    requires Announced(was, hello, report, before, room0, room)
    ensures before == was + Copies(hello, n) + line && (line == [] || line == [report])
  {
    n :| 1 <= n <= 1 + MAX_EXTRA_HELLOS && n <= room0
         && before == was + Copies(hello, n) + (if room0 > n then [report] else []) && room == room0 - |before| + |was|;
    line := if room0 > n then [report] else [];
  }

  lemma PartsOfTrial(x: Session, hello: Message, r: Report, n: nat, line: seq<seq<byte>>, part: seq<seq<byte>>,
                     sent: seq<seq<byte>>)
    requires x.Valid() && hello.kind == HELLO && hello.trial == x.key.trial == r.trial && Bounded(r)
    requires sent == Copies(MakeMessage(hello), n) + line + part
    requires line == [] || line == [ReportWire(r)]
    requires forall w :: w in part ==> w in UploadWire(x)
    ensures OfTrial(x, hello, r, sent)
  {
    forall w | w in sent
      ensures w == MakeMessage(hello) || w == ReportWire(r) || w in UploadWire(x)
    {
      if w in Copies(MakeMessage(hello), n) {
        InCopies(w, MakeMessage(hello), n);
      }
    }
  }

  // ---- the last HELLO ----

  lemma {:induction false} RunSplit(cfg: Config, s: State, a: seq<Event>, b: seq<Event>)
    ensures Run(cfg, s, a + b) == Run(cfg, Run(cfg, s, a), b)
    decreases |a|
  {
    if a == [] {
      assert a + b == b;
    } else {
      assert (a + b)[0] == a[0] && (a + b)[1..] == a[1..] + b;
      RunSplit(cfg, Step(cfg, s, a[0]), a[1..], b);
    }
  }

  /** A HELLO that does not end the program starts its trial afresh. */
  lemma HelloIsFresh(cfg: Config, s: State, peer: Peer, hello: Message)
    requires cfg.Sound() && hello.kind == HELLO && Live(cfg, Step(cfg, s, Datagram(peer, MakeMessage(hello))))
    ensures
      var n := Step(cfg, s, Datagram(peer, MakeMessage(hello)));
      Key(peer, hello.trial) in n.states && Fresh(n.states[Key(peer, hello.trial)])
  {
    if Live(cfg, s) {
      MessageStep(cfg, s, peer, hello);
    }
  }

  ghost predicate Traffic(cfg: Config, x: Session, sent: seq<seq<byte>>, es: seq<Event>)
    requires x.Valid()
  {
    forall k :: 0 <= k < |es| ==> Carried(cfg, x, sent, es[k])
  }

  lemma QuietGrows(cfg: Config, x: Session, hello: Message, sent: seq<seq<byte>>, es: seq<Event>, e: Event)
    requires x.Valid() && Quiet(cfg, x, hello, sent, es) && Carried(cfg, x, sent, e) && !IsHello(x, hello, e)
    ensures Quiet(cfg, x, hello, sent, es + [e])
  {
  }

  /** Behind its last HELLO the traffic is quiet. */
  lemma {:induction false} LastHello(cfg: Config, x: Session, hello: Message, sent: seq<seq<byte>>, es: seq<Event>)
    returns (past: seq<Event>, rest: seq<Event>)
    requires x.Valid() && Traffic(cfg, x, sent, es) && Datagram(x.key.peer, MakeMessage(hello)) in es
    ensures es == past + [Datagram(x.key.peer, MakeMessage(hello))] + rest && Quiet(cfg, x, hello, sent, rest)
  {
    var init, e := es[..|es| - 1], es[|es| - 1];
    assert es == init + [e];
    if IsHello(x, hello, e) {
      past, rest := init, [];
      assert es == past + [e] + rest;
    } else {
      past, rest := LastHello(cfg, x, hello, sent, init);
      QuietGrows(cfg, x, hello, sent, rest, e);
      rest := rest + [e];
    }
  }

  /** The state behind a HELLO: the trial is fresh, and the rest of the events
      run from there. */
  lemma FromHello(cfg: Config, x: Session, hello: Message, s: State, past: seq<Event>, rest: seq<Event>)
    returns (n: State)
    requires cfg.Sound() && hello.kind == HELLO && hello.trial == x.key.trial
    requires Live(cfg, Run(cfg, s, past + [Datagram(x.key.peer, MakeMessage(hello))] + rest))
    ensures x.key in n.states && Fresh(n.states[x.key])
    ensures Run(cfg, n, rest) == Run(cfg, s, past + [Datagram(x.key.peer, MakeMessage(hello))] + rest)
  {
    var e := Datagram(x.key.peer, MakeMessage(hello));
    n := Step(cfg, Run(cfg, s, past), e);
    RunSplit(cfg, s, past + [e], rest);
    RunAppend(cfg, s, past, e);
    if !Live(cfg, n) {
      EndedForGood(cfg, n, rest);
    }
    HelloIsFresh(cfg, Run(cfg, s, past), x.key.peer, hello);
  }

  // ---- end to end ----

  /** The row's deltas are chunks of the measured ones, in index order, each as
      the collector's receive cut it. */
  ghost predicate InOrderSelection(x: Session, jitters: seq<u32>)
    requires x.Valid()
  {
    exists keys: seq<u32> :: Picks(keys, |KeptPieces(x)|) && jitters == Selected(KeptPieces(x), keys)
  }

  /** From a fresh trial on, without further HELLOs. */
  lemma FiledFromFresh(cfg: Config, x: Session, hello: Message, r: Report, sent: seq<seq<byte>>, s: State,
                       es: seq<Event>, before: State)
    requires cfg.Sound() && x.Valid() && OfTrial(x, hello, r, sent)
    requires x.key in s.states && Fresh(s.states[x.key]) && before == Run(cfg, s, es) && Live(cfg, before)
    requires Quiet(cfg, x, hello, sent, es) && !AfterEnd(cfg, PlanOf(x), before).status.Crashed?
    ensures
      var after := AfterEnd(cfg, PlanOf(x), before);
      && |after.rows| == |before.rows| + 1
      && var row := after.rows[|before.rows|];
      && row.key == x.key && InOrderSelection(x, row.jitters) && (row.complete ==> row.raw == x.raw)
  {
    var ds := TrafficExplained(cfg, x, hello, r, sent, es);
    assert Scenario(cfg, x, s, ds, before);
    LossyUpload(cfg, x, s, ds, before);
    AscendingPicks(JitterArrived(PlanOf(x), ds), |KeptPieces(x)|);
    assert Picks(Ascending(JitterArrived(PlanOf(x), ds)), |KeptPieces(x)|);
  }

  /** From the last HELLO on. */
  lemma FiledFromHello(cfg: Config, x: Session, hello: Message, r: Report, sent: seq<seq<byte>>, s: State,
                       es: seq<Event>, before: State)
    requires cfg.Sound() && x.Valid() && OfTrial(x, hello, r, sent)
    requires Traffic(cfg, x, sent, es) && Datagram(x.key.peer, MakeMessage(hello)) in es
    requires before == Run(cfg, s, es) && Live(cfg, before) && !AfterEnd(cfg, PlanOf(x), before).status.Crashed?
    ensures
      var after := AfterEnd(cfg, PlanOf(x), before);
      && |after.rows| == |before.rows| + 1
      && var row := after.rows[|before.rows|];
      && row.key == x.key && InOrderSelection(x, row.jitters) && (row.complete ==> row.raw == x.raw)
  {
    var past, rest := LastHello(cfg, x, hello, sent, es);
    var n := FromHello(cfg, x, hello, s, past, rest);
    FiledFromFresh(cfg, x, hello, r, sent, n, rest, before);
  }

  /** End to end. A client's trial has read `raw` from the source and measured
      `deltas`; its HELLOs, its report and its upload left the socket up to the
      first failing send. If copies of those datagrams, late HELLOs included, in
      any order and number and among any other traffic, and then RAW_END reach a
      collector, the row it files for the trial holds an in-order selection of
      the trial's own deltas, and if it is complete exactly the source bytes of
      this trial. */
  lemma FiledRowIsTheTrial(cfg: Config, c: ClientConfig, dev: EntropyDevice, pos: nat, env: Environment, start: Message,
                           upload: UploadEnd, hello: Message, r: Report, was: seq<seq<byte>>, room0: nat,
                           announced: seq<seq<byte>>, room: nat, sent: seq<seq<byte>>, left: nat,
                           peer: Peer, s: State, es: seq<Event>, before: State)
    requires c.Valid() && cfg.Sound() && !Overruns(c.chunk, |DeltasOf(c, env, start)|)
    requires hello.kind == HELLO && hello.trial == start.trial == r.trial && Bounded(r)
    requires Announced(was, MakeMessage(hello), ReportWire(r), announced, room0, room)
    requires Uploads(c, start, AebStart.RawOf(c, dev, pos, start), DeltasOf(c, env, start), upload, announced, room,
                     sent, left)
    requires
      var x := SessionOf(peer, c, start, AebStart.RawOf(c, dev, pos, start), DeltasOf(c, env, start));
      && |was| <= |sent| && Traffic(cfg, x, sent[|was|..], es) && Datagram(peer, MakeMessage(hello)) in es
      && before == Run(cfg, s, es) && Live(cfg, before)
      && !AfterEnd(cfg, PlanOf(x), before).status.Crashed?
    ensures
      var x := SessionOf(peer, c, start, AebStart.RawOf(c, dev, pos, start), DeltasOf(c, env, start));
      var after := AfterEnd(cfg, PlanOf(x), before);
      && |after.rows| == |before.rows| + 1
      && var row := after.rows[|before.rows|];
      && row.key == x.key && InOrderSelection(x, row.jitters)
      && (row.complete ==> row.raw == dev.Slice(pos, |row.raw|))
      && (row.complete && 0 < start.sampleBytes <= c.limits.maxSampleBytes ==> |row.raw| == start.sampleBytes)
      && (row.complete && !(0 < start.sampleBytes <= c.limits.maxSampleBytes) ==>
            |row.raw| == c.limits.maxSampleBytes)
  {
    var x := SessionOf(peer, c, start, AebStart.RawOf(c, dev, pos, start), DeltasOf(c, env, start));
    SentIsOfTrial(x, hello, r, was, room0, announced, room, sent, left, upload == Sent);
    FiledFromHello(cfg, x, hello, r, sent[|was|..], s, es, before);
  }
}
