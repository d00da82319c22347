/** A trial's report on its way to the collector, and the columns of the filed row
    that are compared with it. */
module AebMatch {
  import opened Bytes
  import opened HexText
  import opened PyText
  import opened AebMessage
  import opened AebUpload
  import opened AebTrial
  import opened AebReport
  import opened AebCollector
  import opened AebCollectorRun
  import opened AebNetwork
  import opened AebLossyUpload
  import opened AebRow
  import opened AebEndToEnd

  // ---- what is noted stays noted ----

  /** The text that an event reports under this name for the trial, if it does. */
  ghost function Reported(cfg: Config, key: Key, name: string, e: Event): Option<string> {
    if e.Datagram? && e.peer == key.peer then
      match cfg.ResultLineOf(Truncated(e.wire, RECV_LIMIT))
      case Result(trial, fields) => if trial == key.trial && name in fields then Some(fields[name]) else None
      case _ => None
    else None
  }

  /** If it reports a text under this name for the trial, it is this one. */
  ghost predicate Repeats(cfg: Config, key: Key, name: string, e: Event, text: string) {
    Reported(cfg, key, name, e) == None || Reported(cfg, key, name, e) == Some(text)
  }

  ghost predicate NothingElse(cfg: Config, key: Key, name: string, es: seq<Event>, text: string) {
    forall k :: 0 <= k < |es| ==> Repeats(cfg, key, name, es[k], text)
  }

  ghost predicate Noted(s: State, key: Key, name: string, text: string) {
    key in s.states && name in s.states[key].result && s.states[key].result[name] == text
  }

  lemma StepKeepsNoted(cfg: Config, p: Plan, s: State, d: Delivery, name: string, text: string)
    requires cfg.Sound() && p.Valid() && Live(cfg, s) && Admissible(cfg, p, d) && Noted(s, p.key, name, text)
    requires Repeats(cfg, p.key, name, EventOf(p, d), text)
    ensures Noted(Step(cfg, s, EventOf(p, d)), p.key, name, text)
  {
    if OfPlan(p, d) {
      OursStep(cfg, p, s, d);
    } else if !Touches(cfg, p.key, d.event) {
      OthersLeaveItAlone(cfg, s, p.key, d.event);
    }
  }

  lemma {:induction false} RunKeepsNoted(cfg: Config, p: Plan, s: State, ds: seq<Delivery>, name: string, text: string)
    requires cfg.Sound() && p.Valid() && Noted(s, p.key, name, text)
    requires forall d :: d in ds ==> Admissible(cfg, p, d) && Repeats(cfg, p.key, name, EventOf(p, d), text)
    requires Live(cfg, Run(cfg, s, EventsOf(cfg, p, ds)))
    ensures Noted(Run(cfg, s, EventsOf(cfg, p, ds)), p.key, name, text)
  {
    if ds != [] {
      var init, d := ds[..|ds| - 1], ds[|ds| - 1];
      assert d in ds && forall a :: a in init ==> a in ds;
      var es := EventsOf(cfg, p, init);
      RunAppend(cfg, s, es, EventOf(p, d));
      assert Live(cfg, Run(cfg, s, es));
      RunKeepsNoted(cfg, p, s, init, name, text);
      StepKeepsNoted(cfg, p, Run(cfg, s, es), d, name, text);
    }
  }

  lemma {:induction false} EventIn(cfg: Config, p: Plan, ds: seq<Delivery>, d: Delivery) returns (k: nat)
    requires p.Valid() && d in ds && forall a :: a in ds ==> Admissible(cfg, p, a)
    ensures k < |EventsOf(cfg, p, ds)| && EventsOf(cfg, p, ds)[k] == EventOf(p, d)
  {
    var init, last := ds[..|ds| - 1], ds[|ds| - 1];
    assert ds == init + [last];
    if d in init {
      k := EventIn(cfg, p, init, d);
    } else {
      k := |EventsOf(cfg, p, init)|;
    }
  }

  lemma NotedStays(cfg: Config, x: Session, hello: Message, r: Report, sent: seq<seq<byte>>, s: State, es: seq<Event>,
                   name: string, text: string)
    requires cfg.Sound() && x.Valid() && OfTrial(x, hello, r, sent) && Quiet(cfg, x, hello, sent, es)
    requires Noted(s, x.key, name, text) && NothingElse(cfg, x.key, name, es, text) && Live(cfg, Run(cfg, s, es))
    ensures Noted(Run(cfg, s, es), x.key, name, text)
  {
    var p := PlanOf(x);
    var ds := TrafficExplained(cfg, x, hello, r, sent, es);
    forall d | d in ds
      ensures Admissible(cfg, p, d) && Repeats(cfg, p.key, name, EventOf(p, d), text)
    {
      var k := EventIn(cfg, p, ds, d);
      assert Repeats(cfg, x.key, name, es[k], text);
    }
    RunKeepsNoted(cfg, p, s, ds, name, text);
  }

  // ---- the report ----

  /** One of the four texts that finalizing looks up. */
  ghost predicate Tells(r: Report, name: string, text: string) {
    || (name == "raw_sha256" && text == Hex(r.rawHash))
    || (name == "jitter_sha256" && text == Hex(r.jitterHash))
    || (name == "response_sha256" && text == Hex(r.responseHash))
    || (name == "interval_us" && text == Decimal(r.intervalUs))
  }

  /** No event reports another digest or interval for the trial. */
  ghost predicate NoOtherReport(cfg: Config, key: Key, es: seq<Event>, r: Report) {
    && NothingElse(cfg, key, "raw_sha256", es, Hex(r.rawHash))
    && NothingElse(cfg, key, "jitter_sha256", es, Hex(r.jitterHash))
    && NothingElse(cfg, key, "response_sha256", es, Hex(r.responseHash))
    && NothingElse(cfg, key, "interval_us", es, Decimal(r.intervalUs))
  }

  /** The report arrives at a live trial, and what it tells is noted. */
  lemma ReportNoted(cfg: Config, x: Session, hello: Message, r: Report, sent: seq<seq<byte>>, s: State, es: seq<Event>,
                    name: string, text: string)
    requires cfg.Sound() && x.Valid() && OfTrial(x, hello, r, sent) && Quiet(cfg, x, hello, sent, es)
    requires x.key in s.states && Fresh(s.states[x.key]) && Live(cfg, Run(cfg, s, es)) && Tells(r, name, text)
    ensures Noted(Step(cfg, Run(cfg, s, es), Datagram(x.key.peer, ReportWire(r))), x.key, name, text)
  {
    var ds := TrafficExplained(cfg, x, hello, r, sent, es);
    CollectsWhatArrives(cfg, PlanOf(x), s, ds);
    ReportIsNoted(cfg, Run(cfg, s, es), x.key.peer, r);
  }

  /** Behind the last HELLO: some traffic, the report, and more traffic. */
  lemma NotedAtEnd(cfg: Config, x: Session, hello: Message, r: Report, sent: seq<seq<byte>>, s: State,
                   early: seq<Event>, late: seq<Event>, name: string, text: string)
    requires cfg.Sound() && x.Valid() && OfTrial(x, hello, r, sent)
    requires Quiet(cfg, x, hello, sent, early) && Quiet(cfg, x, hello, sent, late)
    requires x.key in s.states && Fresh(s.states[x.key])
    requires Tells(r, name, text) && NothingElse(cfg, x.key, name, late, text)
    requires Live(cfg, Run(cfg, s, early + [Datagram(x.key.peer, ReportWire(r))] + late))
    ensures Noted(Run(cfg, s, early + [Datagram(x.key.peer, ReportWire(r))] + late), x.key, name, text)
  {
    var e := Datagram(x.key.peer, ReportWire(r));
    var mid := Run(cfg, s, early);
    RunSplit(cfg, s, early + [e], late);
    RunAppend(cfg, s, early, e);
    var n := Step(cfg, mid, e);
    if !Live(cfg, n) {
      EndedForGood(cfg, n, late);
    }
    assert Live(cfg, mid);
    ReportNoted(cfg, x, hello, r, sent, s, early, name, text);
    NotedStays(cfg, x, hello, r, sent, n, late, name, text);
  }

  // ---- the filed row ----

  /** Every jitter chunk is among the events. */
  ghost predicate AllJitterIn(x: Session, es: seq<Event>)
    requires x.Valid()
  {
    forall j: u32 :: j < |PlanOf(x).jitter| ==> Datagram(x.key.peer, MakeMessage(PlanOf(x).JitterPart(j))) in es
  }

  lemma JitterExplained(cfg: Config, x: Session, ds: seq<Delivery>, es: seq<Event>)
    requires x.Valid() && Explains(cfg, PlanOf(x), ds, es)
    ensures AllJitter(x, ds) <==> AllJitterIn(x, es)
  {
    forall j: u32 | j < |PlanOf(x).jitter|
      ensures JitterCopy(j) in ds <==> Datagram(x.key.peer, MakeMessage(PlanOf(x).JitterPart(j))) in es
    {
      assert OfPlan(PlanOf(x), JitterCopy(j));
    }
  }

  /** The two strings do not collide under the hash. */
  predicate NoCollision(h: Hashing, a: seq<byte>, b: seq<byte>) {
    h.sha256(a) == h.sha256(b) ==> a == b
  }

  /** From a fresh trial on, without further HELLOs, to the state in which RAW_END
      files a row. */
  ghost predicate FromFresh(cfg: Config, x: Session, hello: Message, r: Report, sent: seq<seq<byte>>, s: State,
                            es: seq<Event>, before: State) {
    && cfg.Sound() && x.Valid() && OfTrial(x, hello, r, sent) && Quiet(cfg, x, hello, sent, es)
    && x.key in s.states && Fresh(s.states[x.key]) && before == Run(cfg, s, es) && Live(cfg, before)
    && !AfterEnd(cfg, PlanOf(x), before).status.Crashed?
  }

  ghost predicate SameHash(cfg: Config, h: Hashing) {
    forall d :: cfg.sha256(d) == Hex(h.sha256(d))
  }

  lemma SameDigests(cfg: Config, h: Hashing, a: seq<byte>, b: seq<byte>)
    requires SameHash(cfg, h) && NoCollision(h, a, b) && cfg.sha256(a) == cfg.sha256(b)
    ensures a == b
  {
    HexRoundTrip(h.sha256(a));
    HexRoundTrip(h.sha256(b));
  }

  lemma DigestNonempty(cfg: Config, h: Hashing, d: seq<byte>)
    requires SameHash(cfg, h)
    ensures cfg.sha256(d) == Hex(h.sha256(d)) && cfg.sha256(d) != ""
  {
  }

  lemma ResponseFromFresh(cfg: Config, h: Hashing, x: Session, hello: Message, r: Report, sent: seq<seq<byte>>,
                          s: State, es: seq<Event>, before: State, text: string)
    requires FromFresh(cfg, x, hello, r, sent, s, es, before) && SameHash(cfg, h)
    requires Noted(before, x.key, "response_sha256", text) && text == cfg.sha256(ResponseInput(x.raw, x.deltas))
    ensures
      var after := AfterEnd(cfg, PlanOf(x), before);
      && |after.rows| == |before.rows| + 1
      && var row := after.rows[|before.rows|];
      row.complete && NoCollision(h, row.response, ResponseInput(x.raw, x.deltas)) ==>
        (row.responseDigest.matches == Some(true) <==> AllJitterIn(x, es) && JitterUncut(x))
  {
    var ds := TrafficExplained(cfg, x, hello, r, sent, es);
    LossyUpload(cfg, x, s, ds, before);
    JitterExplained(cfg, x, ds, es);
    DigestNonempty(cfg, h, ResponseInput(x.raw, x.deltas));
    var row := AfterEnd(cfg, PlanOf(x), before).rows[|before.rows|];
    if row.complete && NoCollision(h, row.response, ResponseInput(x.raw, x.deltas)) {
      if cfg.sha256(row.response) == text {
        SameDigests(cfg, h, row.response, ResponseInput(x.raw, x.deltas));
      }
      MatchIff(cfg, x, s, ds, before);
    }
  }

  lemma RawFromFresh(cfg: Config, h: Hashing, x: Session, hello: Message, r: Report, sent: seq<seq<byte>>,
                     s: State, es: seq<Event>, before: State, text: string)
    requires FromFresh(cfg, x, hello, r, sent, s, es, before) && SameHash(cfg, h)
    requires Noted(before, x.key, "raw_sha256", text) && text == cfg.sha256(x.raw)
    ensures
      var after := AfterEnd(cfg, PlanOf(x), before);
      && |after.rows| == |before.rows| + 1
      && var row := after.rows[|before.rows|];
      row.complete ==> row.rawDigest == Digest(cfg.sha256(x.raw), Some(true))
  {
    var ds := TrafficExplained(cfg, x, hello, r, sent, es);
    DigestNonempty(cfg, h, x.raw);
    RawMatches(cfg, x, s, ds, before);
  }

  lemma JitterFromFresh(cfg: Config, h: Hashing, x: Session, hello: Message, r: Report, sent: seq<seq<byte>>,
                        s: State, es: seq<Event>, before: State, text: string)
    requires FromFresh(cfg, x, hello, r, sent, s, es, before) && SameHash(cfg, h)
    requires Noted(before, x.key, "jitter_sha256", text) && text == cfg.sha256(PackLe32(x.deltas))
    ensures
      var after := AfterEnd(cfg, PlanOf(x), before);
      && |after.rows| == |before.rows| + 1
      && var row := after.rows[|before.rows|];
      x.deltas != [] && NoCollision(h, PackLe32(row.jitters), PackLe32(x.deltas)) ==>
        (row.jitterDigest.matches == Some(true) <==> AllJitterIn(x, es) && JitterUncut(x))
  {
    var ds := TrafficExplained(cfg, x, hello, r, sent, es);
    LossyUpload(cfg, x, s, ds, before);
    JitterExplained(cfg, x, ds, es);
    DigestNonempty(cfg, h, PackLe32(x.deltas));
    var stored := PackLe32(AfterEnd(cfg, PlanOf(x), before).rows[|before.rows|].jitters);
    if NoCollision(h, stored, PackLe32(x.deltas)) {
      if cfg.sha256(stored) == text {
        SameDigests(cfg, h, stored, PackLe32(x.deltas));
      }
      JitterMatchIff(cfg, x, s, ds, before);
    }
  }

  lemma IntervalFromFresh(cfg: Config, x: Session, hello: Message, r: Report, sent: seq<seq<byte>>, s: State,
                          es: seq<Event>, before: State, us: u32)
    requires FromFresh(cfg, x, hello, r, sent, s, es, before)
    requires Noted(before, x.key, "interval_us", Decimal(us))
    ensures
      var after := AfterEnd(cfg, PlanOf(x), before);
      && |after.rows| == |before.rows| + 1
      && var row := after.rows[|before.rows|];
      row.jitters != [] ==> row.intervalUs == us && ResidualFile(row)
  {
    var ds := TrafficExplained(cfg, x, hello, r, sent, es);
    DecimalParses(us);
    IntervalNoted(cfg, x, s, ds, before, us);
  }

  // ---- the whole way ----

  /** From the HELLO before which anything may have happened, over some traffic,
      the report and more traffic, to the state in which RAW_END files a row. */
  ghost predicate ReportedRun(cfg: Config, x: Session, hello: Message, r: Report, sent: seq<seq<byte>>, s: State,
                              past: seq<Event>, early: seq<Event>, late: seq<Event>, before: State) {
    && cfg.Sound() && x.Valid() && OfTrial(x, hello, r, sent) && ReportWire(r) in sent
    && Quiet(cfg, x, hello, sent, early) && Quiet(cfg, x, hello, sent, late)
    && NoOtherReport(cfg, x.key, late, r)
    && before == Run(cfg, s, past + [Datagram(x.key.peer, MakeMessage(hello))]
                             + (early + [Datagram(x.key.peer, ReportWire(r))] + late))
    && Live(cfg, before) && !AfterEnd(cfg, PlanOf(x), before).status.Crashed?
  }

  /** It is a run from a fresh trial, and what the report tells is noted. */
  lemma ReportedFromFresh(cfg: Config, x: Session, hello: Message, r: Report, sent: seq<seq<byte>>, s: State,
                          past: seq<Event>, early: seq<Event>, late: seq<Event>, before: State)
    returns (n: State)
    requires ReportedRun(cfg, x, hello, r, sent, s, past, early, late, before)
    ensures FromFresh(cfg, x, hello, r, sent, n, early + [Datagram(x.key.peer, ReportWire(r))] + late, before)
    ensures Noted(before, x.key, "raw_sha256", Hex(r.rawHash))
    ensures Noted(before, x.key, "jitter_sha256", Hex(r.jitterHash))
    ensures Noted(before, x.key, "response_sha256", Hex(r.responseHash))
    ensures Noted(before, x.key, "interval_us", Decimal(r.intervalUs))
  {
    var rest := early + [Datagram(x.key.peer, ReportWire(r))] + late;
    n := FromHello(cfg, x, hello, s, past, rest);
    ReportIsQuiet(cfg, x, hello, r, sent, early, late);
    NotedAtEnd(cfg, x, hello, r, sent, n, early, late, "raw_sha256", Hex(r.rawHash));
    NotedAtEnd(cfg, x, hello, r, sent, n, early, late, "jitter_sha256", Hex(r.jitterHash));
    NotedAtEnd(cfg, x, hello, r, sent, n, early, late, "response_sha256", Hex(r.responseHash));
    NotedAtEnd(cfg, x, hello, r, sent, n, early, late, "interval_us", Decimal(r.intervalUs));
  }

  /** With the trial's own report delivered after the last HELLO and no other
      digest or interval reported for the trial later on: the raw digest of a
      complete row is that of the device's buffer and is marked as matching; the
      jitter and the response are marked as matching iff every jitter chunk
      arrived after that HELLO and none was cut; residuals are taken against the
      interval of the START. Both sides compute one hash, which does not collide
      on the two strings at hand. */
  lemma ReportedMatchIff(cfg: Config, h: Hashing, lim: Limits, x: Session, hello: Message, r: Report,
                         sent: seq<seq<byte>>, s: State, past: seq<Event>, early: seq<Event>, late: seq<Event>,
                         before: State)
    requires ReportedRun(cfg, x, hello, r, sent, s, past, early, late, before)
    requires Describes(lim, h, r, x.start, x.raw, x.deltas) && forall d :: cfg.sha256(d) == Hex(h.sha256(d))
    ensures
      var after := AfterEnd(cfg, PlanOf(x), before);
      var all := AllJitterIn(x, early + late) && JitterUncut(x);
      && |after.rows| == |before.rows| + 1
      && var row := after.rows[|before.rows|];
      && (row.complete ==> row.rawDigest == Digest(cfg.sha256(x.raw), Some(true)))
      && (x.deltas != [] && NoCollision(h, PackLe32(row.jitters), PackLe32(x.deltas)) ==>
            (row.jitterDigest.matches == Some(true) <==> all))
      && (row.complete && NoCollision(h, row.response, ResponseInput(x.raw, x.deltas)) ==>
            (row.responseDigest.matches == Some(true) <==> all))
      && (row.jitters != [] ==> row.intervalUs == x.start.intervalUs && ResidualFile(row))
  {
    var es := early + [Datagram(x.key.peer, ReportWire(r))] + late;
    var n := ReportedFromFresh(cfg, x, hello, r, sent, s, past, early, late, before);
    RawFromFresh(cfg, h, x, hello, r, sent, n, es, before, Hex(r.rawHash));
    JitterFromFresh(cfg, h, x, hello, r, sent, n, es, before, Hex(r.jitterHash));
    ResponseFromFresh(cfg, h, x, hello, r, sent, n, es, before, Hex(r.responseHash));
    IntervalFromFresh(cfg, x, hello, r, sent, n, es, before, r.intervalUs);
    ReportIsNoJitter(cfg, x, r, early, late);
  }

  lemma ReportIsQuiet(cfg: Config, x: Session, hello: Message, r: Report, sent: seq<seq<byte>>, early: seq<Event>,
                      late: seq<Event>)
    requires cfg.Sound() && x.Valid() && OfTrial(x, hello, r, sent)
    requires Quiet(cfg, x, hello, sent, early) && Quiet(cfg, x, hello, sent, late)
    ensures Quiet(cfg, x, hello, sent, early + [Datagram(x.key.peer, ReportWire(r))] + late)
  {
    var line := Datagram(x.key.peer, ReportWire(r));
    ReportIsAdmissible(cfg, x, r);
    ReportIsNoMessage(cfg, r, hello);
    assert Quiet(cfg, x, hello, sent, [line]);
    QuietConcat(cfg, x, hello, sent, early, [line]);
    QuietConcat(cfg, x, hello, sent, early + [line], late);
  }

  lemma QuietConcat(cfg: Config, x: Session, hello: Message, sent: seq<seq<byte>>, a: seq<Event>, b: seq<Event>)
    requires x.Valid() && Quiet(cfg, x, hello, sent, a) && Quiet(cfg, x, hello, sent, b)
    ensures Quiet(cfg, x, hello, sent, a + b)
  {
  }

  lemma ReportIsNoMessage(cfg: Config, r: Report, m: Message)
    requires cfg.Sound() && Bounded(r)
    ensures ReportWire(r) != MakeMessage(m)
  {
    ReportComes(cfg, r);
    MessageComes(cfg, m, Truncated(MakeMessage(m), RECV_LIMIT));
  }

  lemma ReportIsNoJitter(cfg: Config, x: Session, r: Report, early: seq<Event>, late: seq<Event>)
    requires cfg.Sound() && x.Valid() && Bounded(r)
    ensures AllJitterIn(x, early + [Datagram(x.key.peer, ReportWire(r))] + late) <==> AllJitterIn(x, early + late)
  {
    forall j: u32 | j < |PlanOf(x).jitter|
      ensures
        var e := Datagram(x.key.peer, MakeMessage(PlanOf(x).JitterPart(j)));
        e in early + [Datagram(x.key.peer, ReportWire(r))] + late <==> e in early + late
    {
      ReportIsNoMessage(cfg, r, PlanOf(x).JitterPart(j));
    }
  }
}
