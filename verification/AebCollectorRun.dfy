/** What the collector keeps over every run, for any interleaving of peers,
    trials, timeouts and undecodable datagrams. */
module AebCollectorRun {
  import opened Bytes
  import opened AebMessage
  import opened AebCollector

  function RawOf(r: Row): seq<byte> { if r.complete then r.raw else [] }
  function ResponseOf(r: Row): seq<byte> { if r.complete then r.raw + PackLe32(r.jitters) else [] }
  function DeltaOf(r: Row): seq<byte> { PackLe32(r.jitters) }
  function ResidualOf(r: Row): seq<byte> { PackResiduals(r.jitters, r.intervalUs) }

  /** The contributions of the rows, in row order. */
  function Gather(rows: seq<Row>, part: Row -> seq<byte>): seq<byte> {
    if rows == [] then [] else Gather(rows[..|rows| - 1], part) + part(rows[|rows| - 1])
  }

  function CompleteRows(rows: seq<Row>): nat {
    if rows == [] then 0
    else CompleteRows(rows[..|rows| - 1]) + (if rows[|rows| - 1].complete then 1 else 0)
  }

  lemma GatherAppend(rows: seq<Row>, r: Row, part: Row -> seq<byte>)
    ensures Gather(rows + [r], part) == Gather(rows, part) + part(r)
  {
    assert (rows + [r])[..|rows|] == rows;
  }

  /** Appending a row's part keeps a stream in step with the rows. */
  lemma StreamAppend(base: seq<byte>, all: seq<byte>, rows: seq<Row>, r: Row, part: Row -> seq<byte>)
    requires all == base + Gather(rows, part)
    ensures all + part(r) == base + Gather(rows + [r], part)
  {
    GatherAppend(rows, r, part);
  }

  /** The four aggregate files, beyond what they held at the start. */
  ghost predicate Aggregates(s0: State, s: State) {
    && (if s.status.Crashed? then s.rawAll == s0.rawAll + Gather(s.rows, RawOf) + s.status.appended
        else s.rawAll == s0.rawAll + Gather(s.rows, RawOf))
    && s.jointAll == s0.jointAll + Gather(s.rows, ResponseOf)
    && s.deltaAll == s0.deltaAll + Gather(s.rows, DeltaOf)
    && s.residualAll == s0.residualAll + Gather(s.rows, ResidualOf)
  }

  /** Capture ids: at most one row each, and no row for a live one. */
  ghost predicate Ids(s: State) {
    && (forall i :: 0 <= i < |s.rows| ==> s.rows[i].captureId < s.counter)
    && (forall i, j :: 0 <= i < j < |s.rows| ==> s.rows[i].captureId != s.rows[j].captureId)
    && (forall k :: k in s.states ==> s.states[k].captureId < s.counter)
    && (forall k, l :: k in s.states && l in s.states && k != l ==> s.states[k].captureId != s.states[l].captureId)
    && (forall k, i :: k in s.states && 0 <= i < |s.rows| ==> s.states[k].captureId != s.rows[i].captureId)
  }

  ghost predicate Counts(cfg: Config, s: State) {
    s.completed == CompleteRows(s.rows) && (s.completed > 0 ==> s.completed <= cfg.target)
  }

  /** What one row says about itself: a complete row holds at least one raw
      byte and lacks no chunk, the other has no raw file; and the jitter streams
      are the two packings of the same deltas. */
  ghost predicate RowSound(r: Row) {
    && (if r.complete then r.raw != [] && r.missing == [] else r.raw == [])
    && ResidualsFit(r.jitters, r.intervalUs)
    && r.delta == DeltaOf(r) && r.residual == ResidualOf(r) && r.response == ResponseOf(r)
  }

  ghost predicate RowsSound(s: State) {
    forall i :: 0 <= i < |s.rows| ==> RowSound(s.rows[i])
  }

  ghost predicate Invariant(cfg: Config, s0: State, s: State) {
    Aggregates(s0, s) && Ids(s) && Counts(cfg, s) && RowsSound(s)
  }

  lemma FinalizedRowSound(cfg: Config, key: Key, t: Trial, expected: u32, rawLen: u32)
    ensures
      match Finalize(cfg, key, t, expected, rawLen)
      case Raised(_) => true
      case Filed(row) => RowSound(row) && row.captureId == t.captureId && row.key == key
  {
  }

  lemma FilingKeepsAggregates(s0: State, s: State, key: Key, row: Row)
    requires key in s.states && s.status == Running && Aggregates(s0, s) && RowSound(row)
    ensures Aggregates(s0, Concluded(s, key, s.states[key], Filed(row)))
  {
    StreamAppend(s0.rawAll, s.rawAll, s.rows, row, RawOf);
    StreamAppend(s0.jointAll, s.jointAll, s.rows, row, ResponseOf);
    StreamAppend(s0.deltaAll, s.deltaAll, s.rows, row, DeltaOf);
    StreamAppend(s0.residualAll, s.residualAll, s.rows, row, ResidualOf);
  }

  lemma FilingKeepsIds(s: State, key: Key, row: Row)
    requires key in s.states && Ids(s) && row.captureId == s.states[key].captureId
    ensures Ids(Concluded(s, key, s.states[key], Filed(row)))
  {
    var states := s.states - {key};
    assert forall k :: k in states ==> k in s.states && k != key && states[k] == s.states[k];
  }

  lemma FilingKeepsInvariant(cfg: Config, s0: State, s: State, key: Key, row: Row, t: Trial)
    requires Live(cfg, s) && key in s.states && Invariant(cfg, s0, s)
    requires RowSound(row) && row.captureId == s.states[key].captureId
    ensures Invariant(cfg, s0, Concluded(s, key, t, Filed(row)))
  {
    FilingKeepsAggregates(s0, s, key, row);
    FilingKeepsIds(s, key, row);
    assert (s.rows + [row])[..|s.rows|] == s.rows;
  }

  lemma RaisingKeepsInvariant(cfg: Config, s0: State, s: State, key: Key, t: Trial, appended: seq<byte>)
    requires Live(cfg, s) && key in s.states && Invariant(cfg, s0, s)
    requires t.captureId == s.states[key].captureId
    ensures Invariant(cfg, s0, Concluded(s, key, t, Raised(appended)))
  {
  }

  /** Replacing one live trial's data, whatever it is, keeps the invariant. */
  lemma UpdateKeepsInvariant(cfg: Config, s0: State, s: State, key: Key, t: Trial)
    requires Live(cfg, s) && key in s.states && Invariant(cfg, s0, s)
    requires t.captureId == s.states[key].captureId
    ensures Invariant(cfg, s0, s.(states := s.states[key := t]))
  {
  }

  /** A new trial takes the next id, whatever it replaces. */
  lemma NewIdKeepsIds(s: State, n: State, key: Key, t: Trial)
    requires Ids(s) && t.captureId == s.counter
    requires n.states == s.states[key := t] && n.counter == s.counter + 1 && n.rows == s.rows
    ensures Ids(n)
  {
  }

  lemma HelloKeepsInvariant(cfg: Config, s0: State, s: State, key: Key, m: Message)
    requires Live(cfg, s) && Invariant(cfg, s0, s)
    ensures Invariant(cfg, s0, OnHello(cfg, s, key, m))
  {
    var n := OnHello(cfg, s, key, m);
    if StimulusFits(cfg, m, s.counter) {
      NewIdKeepsIds(s, n, key, NewTrial(cfg, m, s.counter));
    } else {
      assert Ids(n);
    }
  }

  lemma EndKeepsInvariant(cfg: Config, s0: State, s: State, key: Key, t: Trial)
    requires Live(cfg, s) && key in s.states && Invariant(cfg, s0, s)
    requires t.captureId == s.states[key].captureId && t.expected.Some? && t.rawLen.Some?
    ensures Invariant(cfg, s0, File(cfg, s, key, t))
  {
    FinalizedRowSound(cfg, key, t, t.expected.value, t.rawLen.value);
    match Finalize(cfg, key, t, t.expected.value, t.rawLen.value)
    case Raised(appended) => RaisingKeepsInvariant(cfg, s0, s, key, t, appended);
    case Filed(row) => FilingKeepsInvariant(cfg, s0, s, key, row, t);
  }

  lemma MessageKeepsInvariant(cfg: Config, s0: State, s: State, key: Key, m: Message)
    requires Live(cfg, s) && Invariant(cfg, s0, s)
    ensures Invariant(cfg, s0, OnMessage(cfg, s, key, m))
  {
    if m.kind == HELLO {
      HelloKeepsInvariant(cfg, s0, s, key, m);
    } else if key !in s.states {
    } else if m.kind == RAW_END {
      EndKeepsInvariant(cfg, s0, s, key, AtEnd(s.states[key], m));
    } else {
      UpdateKeepsInvariant(cfg, s0, s, key, Absorb(s.states[key], m));
    }
  }

  lemma DataKeepsInvariant(cfg: Config, s0: State, s: State, peer: Peer, data: seq<byte>)
    requires Live(cfg, s) && Invariant(cfg, s0, s)
    ensures Invariant(cfg, s0, OnData(cfg, s, peer, data))
  {
    match cfg.ResultLineOf(data)
    case BadTrial =>
    case Result(trial, fields) =>
      var key := Key(peer, trial);
      if key in s.states {
        UpdateKeepsInvariant(cfg, s0, s, key, NoteResult(s.states[key], fields));
      }
    case NotResult =>
      if ParseMessage(data).Some? {
        MessageKeepsInvariant(cfg, s0, s, Key(peer, ParseMessage(data).value.trial), ParseMessage(data).value);
      }
  }

  /** One turn of the receive loop keeps the invariant. */
  lemma StepKeepsInvariant(cfg: Config, s0: State, s: State, e: Event)
    requires Invariant(cfg, s0, s)
    ensures Invariant(cfg, s0, Step(cfg, s, e))
  {
    if Live(cfg, s) && e.Datagram? {
      DataKeepsInvariant(cfg, s0, s, e.peer, Truncated(e.wire, RECV_LIMIT));
    }
  }

  /** The whole-run invariant: whatever arrives, in whatever order. */
  lemma {:induction false} RunKeepsInvariant(cfg: Config, s0: State, s: State, events: seq<Event>)
    requires Invariant(cfg, s0, s)
    ensures Invariant(cfg, s0, Run(cfg, s, events))
    decreases |events|
  {
    if events != [] {
      StepKeepsInvariant(cfg, s0, s, events[0]);
      RunKeepsInvariant(cfg, s0, Step(cfg, s, events[0]), events[1..]);
    }
  }

  lemma {:induction false} SameLengths(rows: seq<Row>)
    ensures |Gather(rows, DeltaOf)| == |Gather(rows, ResidualOf)|
  {
    if rows != [] {
      SameLengths(rows[..|rows| - 1]);
    }
  }

  /** From the start of the program: every run ends with aggregates that are
      the initial contents followed by the rows' contributions, two jitter
      streams that grow alike, and the completed count of the printed summary. */
  lemma WholeRun(cfg: Config, raw: seq<byte>, delta: seq<byte>, residual: seq<byte>, joint: seq<byte>,
                 events: seq<Event>)
    ensures
      var s := Run(cfg, Initial(raw, delta, residual, joint), events);
      Invariant(cfg, Initial(raw, delta, residual, joint), s)
      && |s.deltaAll| - |delta| == |s.residualAll| - |residual|
      && s.deltaAll == delta + Gather(s.rows, DeltaOf)
      && s.jointAll == joint + Gather(s.rows, ResponseOf)
  {
    var s0 := Initial(raw, delta, residual, joint);
    RunKeepsInvariant(cfg, s0, s0, events);
    SameLengths(Run(cfg, s0, events).rows);
  }

  /** A file of the rows, one behind the other. */
  lemma {:induction false} GatherIs(rows: seq<Row>, part: Row -> seq<byte>, files: seq<seq<byte>>)
    requires |files| == |rows| && forall i :: 0 <= i < |rows| ==> files[i] == part(rows[i])
    ensures Gather(rows, part) == Flatten(files)
  {
    if rows != [] {
      GatherIs(rows[..|rows| - 1], part, files[..|rows| - 1]);
    }
  }

  function RawFiles(rows: seq<Row>): (files: seq<seq<byte>>)
    ensures |files| == |rows| && forall i :: 0 <= i < |files| ==> files[i] == rows[i].raw
  {
    seq(|rows|, i requires 0 <= i < |rows| => rows[i].raw)
  }

  function DeltaFiles(rows: seq<Row>): (files: seq<seq<byte>>)
    ensures |files| == |rows| && forall i :: 0 <= i < |files| ==> files[i] == rows[i].delta
  {
    seq(|rows|, i requires 0 <= i < |rows| => rows[i].delta)
  }

  function ResidualFiles(rows: seq<Row>): (files: seq<seq<byte>>)
    ensures |files| == |rows| && forall i :: 0 <= i < |files| ==> files[i] == rows[i].residual
  {
    seq(|rows|, i requires 0 <= i < |rows| => rows[i].residual)
  }

  function ResponseFiles(rows: seq<Row>): (files: seq<seq<byte>>)
    ensures |files| == |rows| && forall i :: 0 <= i < |files| ==> files[i] == rows[i].response
  {
    seq(|rows|, i requires 0 <= i < |rows| => rows[i].response)
  }

  lemma RawGathered(rows: seq<Row>)
    requires forall i :: 0 <= i < |rows| ==> RowSound(rows[i])
    ensures Gather(rows, RawOf) == Flatten(RawFiles(rows))
  {
    forall i | 0 <= i < |rows|
      ensures RawFiles(rows)[i] == RawOf(rows[i])
    {
      assert RowSound(rows[i]);
    }
    GatherIs(rows, RawOf, RawFiles(rows));
  }

  lemma DeltaGathered(rows: seq<Row>)
    requires forall i :: 0 <= i < |rows| ==> RowSound(rows[i])
    ensures Gather(rows, DeltaOf) == Flatten(DeltaFiles(rows))
  {
    forall i | 0 <= i < |rows|
      ensures DeltaFiles(rows)[i] == DeltaOf(rows[i])
    {
      assert RowSound(rows[i]);
    }
    GatherIs(rows, DeltaOf, DeltaFiles(rows));
  }

  lemma ResidualGathered(rows: seq<Row>)
    requires forall i :: 0 <= i < |rows| ==> RowSound(rows[i])
    ensures Gather(rows, ResidualOf) == Flatten(ResidualFiles(rows))
  {
    forall i | 0 <= i < |rows|
      ensures ResidualFiles(rows)[i] == ResidualOf(rows[i])
    {
      assert RowSound(rows[i]);
    }
    GatherIs(rows, ResidualOf, ResidualFiles(rows));
  }

  lemma ResponseGathered(rows: seq<Row>)
    requires forall i :: 0 <= i < |rows| ==> RowSound(rows[i])
    ensures Gather(rows, ResponseOf) == Flatten(ResponseFiles(rows))
  {
    forall i | 0 <= i < |rows|
      ensures ResponseFiles(rows)[i] == ResponseOf(rows[i])
    {
      assert RowSound(rows[i]);
    }
    GatherIs(rows, ResponseOf, ResponseFiles(rows));
  }

  /** The aggregate files are the files of the rows, in row order, behind what they
      held at the start; only an exception leaves raw bytes that are of no row. */
  lemma AggregateFiles(cfg: Config, raw: seq<byte>, delta: seq<byte>, residual: seq<byte>, joint: seq<byte>,
                       events: seq<Event>)
    ensures
      var s := Run(cfg, Initial(raw, delta, residual, joint), events);
      && s.deltaAll == delta + Flatten(DeltaFiles(s.rows))
      && s.residualAll == residual + Flatten(ResidualFiles(s.rows))
      && s.jointAll == joint + Flatten(ResponseFiles(s.rows))
      && s.rawAll == raw + Flatten(RawFiles(s.rows)) + if s.status.Crashed? then s.status.appended else []
  {
    WholeRun(cfg, raw, delta, residual, joint, events);
    var rows := Run(cfg, Initial(raw, delta, residual, joint), events).rows;
    RawGathered(rows);
    DeltaGathered(rows);
    ResidualGathered(rows);
    ResponseGathered(rows);
  }

  /** A RAW_END whose trial is complete but whose jitter cannot be packed:
      finalize_trial raises after it has appended the raw bytes. */
  ghost predicate OrphansRawBytes(cfg: Config, s: State, e: Event) {
    && Live(cfg, s) && e.Datagram?
    && var data := Truncated(e.wire, RECV_LIMIT);
    && cfg.ResultLineOf(data).NotResult? && ParseMessage(data).Some?
    && MessageOrphans(cfg, s, Key(e.peer, ParseMessage(data).value.trial), ParseMessage(data).value)
  }

  ghost predicate MessageOrphans(cfg: Config, s: State, key: Key, m: Message) {
    && m.kind == RAW_END && key in s.states
    && var t := AtEnd(s.states[key], m);
    && Reassembled(t.raw, t.expected.value, t.rawLen.value).Some?
    && var values := JitterValues(t.jitter);
    && values != [] && Unpackable(cfg, t, values)
  }

  /** An exception left raw bytes behind. */
  predicate LeftBytes(s: State) {
    s.status.Crashed? && s.status.appended != []
  }

  lemma FileLeavesBytesIff(cfg: Config, s: State, key: Key, t: Trial)
    requires s.status == Running && t.expected.Some? && t.rawLen.Some?
    ensures
      LeftBytes(File(cfg, s, key, t)) <==>
        && Reassembled(t.raw, t.expected.value, t.rawLen.value).Some?
        && JitterValues(t.jitter) != [] && Unpackable(cfg, t, JitterValues(t.jitter))
  {
  }

  lemma AppendsOnlyOrphans(cfg: Config, s: State, e: Event)
    requires Live(cfg, s)
    ensures LeftBytes(Step(cfg, s, e)) <==> OrphansRawBytes(cfg, s, e)
  {
    if e.Datagram? {
      var data := Truncated(e.wire, RECV_LIMIT);
      if cfg.ResultLineOf(data).NotResult? && ParseMessage(data).Some? {
        var m := ParseMessage(data).value;
        var key := Key(e.peer, m.trial);
        if m.kind == RAW_END && key in s.states {
          FileLeavesBytesIff(cfg, s, key, AtEnd(s.states[key], m));
        }
      }
    }
  }

  lemma ExactUnlessAppended(s0: State, s: State)
    requires Aggregates(s0, s)
    ensures s.rawAll == s0.rawAll + Gather(s.rows, RawOf) <==> !LeftBytes(s)
  {
    if s.status.Crashed? {
      assert |s.rawAll| == |s0.rawAll + Gather(s.rows, RawOf)| + |s.status.appended|;
    }
  }

  /** The raw aggregate is exactly the complete rows' bytes until a RAW_END
      orphans raw bytes: the step that does is the step that breaks it. */
  lemma RawAggregateExactIff(cfg: Config, s0: State, s: State, e: Event)
    requires Invariant(cfg, s0, s) && Live(cfg, s)
    ensures
      var n := Step(cfg, s, e);
      n.rawAll == s0.rawAll + Gather(n.rows, RawOf) <==> !OrphansRawBytes(cfg, s, e)
  {
    StepKeepsInvariant(cfg, s0, s, e);
    ExactUnlessAppended(s0, Step(cfg, s, e));
    AppendsOnlyOrphans(cfg, s, e);
  }

  /** The raw aggregate is exactly the complete rows' bytes. */
  ghost predicate RawExact(s0: State, s: State) {
    s.rawAll == s0.rawAll + Gather(s.rows, RawOf)
  }

  /** No event of the run orphans raw bytes in the state it meets. */
  ghost predicate NeverOrphans(cfg: Config, s: State, events: seq<Event>)
    decreases |events|
  {
    events != [] ==> !OrphansRawBytes(cfg, s, events[0]) && NeverOrphans(cfg, Step(cfg, s, events[0]), events[1..])
  }

  lemma {:induction false} EndedForGood(cfg: Config, s: State, events: seq<Event>)
    requires !Live(cfg, s)
    ensures Run(cfg, s, events) == s && NeverOrphans(cfg, s, events)
    decreases |events|
  {
    if events != [] {
      EndedForGood(cfg, s, events[1..]);
    }
  }

  /** Over a whole run: the raw aggregate is exact at the end if and only if no
      event orphaned raw bytes. */
  lemma {:induction false} RunExactIff(cfg: Config, s0: State, s: State, events: seq<Event>)
    requires Invariant(cfg, s0, s) && RawExact(s0, s)
    ensures RawExact(s0, Run(cfg, s, events)) <==> NeverOrphans(cfg, s, events)
    decreases |events|
  {
    if !Live(cfg, s) {
      EndedForGood(cfg, s, events);
    } else if events != [] {
      var n := Step(cfg, s, events[0]);
      StepKeepsInvariant(cfg, s0, s, events[0]);
      RawAggregateExactIff(cfg, s0, s, events[0]);
      if OrphansRawBytes(cfg, s, events[0]) {
        AppendsOnlyOrphans(cfg, s, events[0]);
        EndedForGood(cfg, n, events[1..]);
      } else {
        RunExactIff(cfg, s0, n, events[1..]);
      }
    }
  }

  lemma {:induction false} AllSentIff(cfg: Config, m: Message, id: nat, n: nat)
    requires StartFits(cfg, m) && n < U32_LIMIT
    ensures |BurstsSent(cfg, m, id, n)| == n <==> forall k: nat :: k < n ==> BurstFits(cfg, m, id, k)
  {
    if n > 0 {
      AllSentIff(cfg, m, id, n - 1);
    }
  }

  /** send_stimulus returns iff every number of the START fits its field, the
      start delay can be slept, and every burst packs and can be sent. */
  lemma StimulusFitsIff(cfg: Config, m: Message, id: nat)
    ensures StimulusFits(cfg, m, id) <==>
      && StartFits(cfg, m) && cfg.DelayFits()
      && forall k: nat :: k < StartFor(cfg, m).seqOrCount ==> BurstFits(cfg, m, id, k)
  {
    if StartFits(cfg, m) {
      AllSentIff(cfg, m, id, StartFor(cfg, m).seqOrCount);
    }
  }

  /** What ends the program with an exception: a result line whose trial is no
      number, a HELLO whose stimulus raises, or a RAW_END of a live trial
      whose jitter does not pack. */
  ghost predicate CrashCause(cfg: Config, s: State, e: Event) {
    e.Datagram? &&
    var data := Truncated(e.wire, RECV_LIMIT);
    match cfg.ResultLineOf(data)
    case BadTrial => true
    case Result(_, _) => false
    case NotResult => ParseMessage(data).Some? && MessageCrashes(cfg, s, e.peer, ParseMessage(data).value)
  }

  ghost predicate MessageCrashes(cfg: Config, s: State, peer: Peer, m: Message) {
    var key := Key(peer, m.trial);
    || (m.kind == HELLO && !StimulusFits(cfg, m, s.counter))
    || (m.kind == RAW_END && key in s.states
        && var values := JitterValues(s.states[key].jitter);
        values != [] && Unpackable(cfg, s.states[key], values))
  }

  lemma CrashesIff(cfg: Config, s: State, e: Event)
    requires Live(cfg, s)
    ensures Step(cfg, s, e).status.Crashed? <==> CrashCause(cfg, s, e)
  {
    if e.Datagram? {
      var data := Truncated(e.wire, RECV_LIMIT);
      if cfg.ResultLineOf(data).NotResult? && ParseMessage(data).Some? {
        MessageCrashesIff(cfg, s, e.peer, ParseMessage(data).value);
      }
    }
  }

  lemma MessageCrashesIff(cfg: Config, s: State, peer: Peer, m: Message)
    requires s.status == Running
    ensures OnMessage(cfg, s, Key(peer, m.trial), m).status.Crashed? <==> MessageCrashes(cfg, s, peer, m)
  {
    var key := Key(peer, m.trial);
    if m.kind == RAW_END && key in s.states {
      var t := AtEnd(s.states[key], m);
      assert IntervalFor(cfg, t) == IntervalFor(cfg, s.states[key]);
    }
  }

  /** Reads a residual back as a signed 32-bit number. */
  function Signed32(w: u32): int {
    if w < 0x8000_0000 then w else w - U32_LIMIT
  }

  /** The residual file loses nothing: adding the interval to each decoded
      residual gives the deltas of the delta file. */
  lemma SignedWraps(v: int)
    requires FitsS32(v)
    ensures Signed32(v % U32_LIMIT) == v
  {
  }

  lemma FirstResidual(values: seq<u32>, intervalUs: int)
    requires values != []
    ensures
      var s := PackResiduals(values, intervalUs);
      && UnpackLe32(s)[0] == (values[0] - intervalUs) % U32_LIMIT
      && UnpackLe32(s)[1..] == UnpackLe32(PackResiduals(values[1..], intervalUs))
  {
    var s, w := PackResiduals(values, intervalUs), (values[0] - intervalUs) % U32_LIMIT;
    assert s[..4] == Le(4, w) && s[4..] == PackResiduals(values[1..], intervalUs);
    RadixValues();
    LeRoundTrip(4, w);
  }

  lemma {:induction false} ResidualsDecode(values: seq<u32>, intervalUs: int, i: nat)
    requires ResidualsFit(values, intervalUs) && i < |values|
    ensures Signed32(UnpackLe32(PackResiduals(values, intervalUs))[i]) + intervalUs
         == values[i] == UnpackLe32(PackLe32(values))[i]
  {
    UnpackOfPack(values);
    FirstResidual(values, intervalUs);
    if i == 0 {
      assert values[0] in values;
      SignedWraps(values[0] - intervalUs);
    } else {
      assert forall v :: v in values[1..] ==> v in values;
      ResidualsDecode(values[1..], intervalUs, i - 1);
    }
  }

  // ---- independence of other peers and trials ----

  /** The event is addressed to the trial of this key. */
  ghost predicate Touches(cfg: Config, key: Key, e: Event) {
    e.Datagram? && e.peer == key.peer
    && var data := Truncated(e.wire, RECV_LIMIT);
    match cfg.ResultLineOf(data)
    case NotResult => ParseMessage(data).Some? && ParseMessage(data).value.trial == key.trial
    case BadTrial => false
    case Result(trial, _) => trial == key.trial
  }

  /** From s to n the trial of this key is untouched and gets no row. */
  ghost predicate Untouched(s: State, n: State, key: Key) {
    && (key in s.states <==> key in n.states) && (key in s.states ==> n.states[key] == s.states[key])
    && s.rows <= n.rows && forall i :: |s.rows| <= i < |n.rows| ==> n.rows[i].key != key
  }

  lemma OtherMessageLeavesItAlone(cfg: Config, s: State, key: Key, other: Key, m: Message)
    requires other != key
    ensures Untouched(s, OnMessage(cfg, s, other, m), key)
  {
  }

  /** Other traffic never changes a live trial while the loop goes on, and
      files no row for it. */
  lemma OthersLeaveItAlone(cfg: Config, s: State, key: Key, e: Event)
    requires !Touches(cfg, key, e)
    ensures Untouched(s, Step(cfg, s, e), key)
  {
    if Live(cfg, s) && e.Datagram? {
      var data := Truncated(e.wire, RECV_LIMIT);
      if cfg.ResultLineOf(data).NotResult? && ParseMessage(data).Some? {
        OtherMessageLeavesItAlone(cfg, s, key, Key(e.peer, ParseMessage(data).value.trial), ParseMessage(data).value);
      }
    }
  }

  // ---- repeated HELLOs ----

  /** A capture id that was handed out and belongs to no live trial and no row. */
  ghost predicate Burned(s: State, id: nat) {
    && id < s.counter
    && (forall k :: k in s.states ==> s.states[k].captureId != id)
    && (forall i :: 0 <= i < |s.rows| ==> s.rows[i].captureId != id)
  }

  lemma FilingKeepsBurned(cfg: Config, s: State, key: Key, t: Trial, id: nat)
    requires Burned(s, id) && key in s.states && t.captureId == s.states[key].captureId
    requires t.expected.Some? && t.rawLen.Some?
    ensures Burned(File(cfg, s, key, t), id)
  {
    FinalizedRowSound(cfg, key, t, t.expected.value, t.rawLen.value);
  }

  lemma MessageKeepsBurned(cfg: Config, s: State, key: Key, m: Message, id: nat)
    requires Burned(s, id)
    ensures Burned(OnMessage(cfg, s, key, m), id)
  {
    if m.kind == RAW_END && key in s.states {
      FilingKeepsBurned(cfg, s, key, AtEnd(s.states[key], m), id);
    }
  }

  lemma StepKeepsBurned(cfg: Config, s: State, e: Event, id: nat)
    requires Burned(s, id)
    ensures Burned(Step(cfg, s, e), id)
  {
    if Live(cfg, s) && e.Datagram? {
      var data := Truncated(e.wire, RECV_LIMIT);
      if cfg.ResultLineOf(data).NotResult? && ParseMessage(data).Some? {
        MessageKeepsBurned(cfg, s, Key(e.peer, ParseMessage(data).value.trial), ParseMessage(data).value, id);
      }
    }
  }

  lemma {:induction false} RunKeepsBurned(cfg: Config, s: State, events: seq<Event>, id: nat)
    requires Burned(s, id)
    ensures Burned(Run(cfg, s, events), id)
    decreases |events|
  {
    if events != [] {
      StepKeepsBurned(cfg, s, events[0], id);
      RunKeepsBurned(cfg, Step(cfg, s, events[0]), events[1..], id);
    }
  }

  /** A repeated HELLO starts the trial over with an empty state and the next
      capture id; the replaced id is in no row of any later run. If its stimulus
      raises, the exception leaves the old trial in place. */
  lemma RepeatedHello(cfg: Config, s0: State, s: State, key: Key, m: Message, events: seq<Event>)
    requires Invariant(cfg, s0, s) && m.kind == HELLO && key in s.states
    ensures
      var n := OnMessage(cfg, s, key, m);
      if StimulusFits(cfg, m, s.counter) then
        && n.states[key].captureId == s.counter && n.states[key].raw == map[] && n.states[key].jitter == map[]
        && n.states[key].expected.None? && n.states[key].result == map[]
        && Burned(Run(cfg, n, events), s.states[key].captureId)
      else n.status.Crashed? && n.states == s.states
  {
    if StimulusFits(cfg, m, s.counter) {
      RunKeepsBurned(cfg, OnMessage(cfg, s, key, m), events, s.states[key].captureId);
    }
  }
}
