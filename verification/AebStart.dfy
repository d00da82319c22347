/** The client's start handshake and one whole trial of client_hello_loop. */
module AebStart {
  import opened Bytes
  import opened AebMessage
  import opened AebUpload
  import opened AebTrial
  import opened AebReport

  const START_TIMEOUT_MS := 10000
  const HELLO_PERIOD_MS := 1000
  const MAX_EXTRA_HELLOS := 10

  datatype Poll = Quiet | PollError | RecvError | Got(data: seq<byte>)

  /** One iteration of the wait loop: the clock reading of the loop test, the
      reading inside, and what poll and recv made of the socket. */
  datatype Turn = Turn(check: int, now: int, poll: Poll)

  /** The readings of one clock, from the given one on. */
  predicate Monotone(since: int, turns: seq<Turn>)
    decreases |turns|
  {
    turns != [] ==> since <= turns[0].check <= turns[0].now && Monotone(turns[0].now, turns[1..])
  }

  datatype WaitResult =
    | Started(start: Message)
    | SendFailed
    | SocketFailed
    | TimedOut
    | StillWaiting

  predicate IsStart(trial: u32, t: Turn) {
    t.poll.Got?
    && var m := ParseMessage(Truncated(t.poll.data, RECV_BUF_LEN));
    m.Some? && m.value.kind == START && m.value.trial == trial
  }

  function Copies<T>(x: T, n: nat): (s: seq<T>)
    ensures |s| == n && forall i :: 0 <= i < n ==> s[i] == x
  {
    seq(n, i => x)
  }

  /** A turn that neither ends the wait nor finds its deadline passed. */
  predicate KeepsWaiting(trial: u32, deadline: int, t: Turn) {
    t.check < deadline && (t.poll.Quiet? || (t.poll.Got? && !IsStart(trial, t)))
  }

  /** When the next HELLO is due after n turns, the first one being due at `due`. */
  function NextHello(due: int, turns: seq<Turn>, n: nat): int
    requires n <= |turns|
  {
    if n == 0 then due
    else if turns[n - 1].now >= NextHello(due, turns, n - 1) then turns[n - 1].now + HELLO_PERIOD_MS
    else NextHello(due, turns, n - 1)
  }

  /** The HELLOs repeated in the first n turns: one in each turn that finds one due. */
  function Repeats(due: int, turns: seq<Turn>, n: nat): (k: nat)
    requires n <= |turns|
  {
    if n == 0 then 0
    else Repeats(due, turns, n - 1) + (if turns[n - 1].now >= NextHello(due, turns, n - 1) then 1 else 0)
  }

  /** When the next repeat is due behind the repeats in these turns. */
  ghost function DueAfter(due: int, turns: seq<Turn>, at: seq<nat>): int
    requires forall m :: 0 <= m < |at| ==> at[m] < |turns|
  {
    if at == [] then due else turns[at[|at| - 1]].now + 1000
  }

  /** The turns of `at`, in order, are those before turn n in which a repeat is due:
      a second after the last one. */
  ghost predicate RepeatsIn(due: int, turns: seq<Turn>, n: nat, at: seq<nat>)
    requires n <= |turns|
    decreases n
  {
    if n == 0 then at == []
    else if at != [] && at[|at| - 1] == n - 1 then
      var init := at[..|at| - 1];
      && RepeatsIn(due, turns, n - 1, init) && (forall m :: 0 <= m < |init| ==> init[m] < n - 1)
      && turns[n - 1].now >= DueAfter(due, turns, init)
    else
      && RepeatsIn(due, turns, n - 1, at) && (forall m :: 0 <= m < |at| ==> at[m] < n - 1)
      && turns[n - 1].now < DueAfter(due, turns, at)
  }

  /** There are such turns, as many as there are repeats. */
  lemma {:induction false} RepeatTurns(due: int, turns: seq<Turn>, n: nat) returns (at: seq<nat>)
    requires n <= |turns|
    ensures |at| == Repeats(due, turns, n) && RepeatsIn(due, turns, n, at)
    ensures forall m :: 0 <= m < |at| ==> at[m] < n
    ensures NextHello(due, turns, n) == DueAfter(due, turns, at)
  {
    if n == 0 {
      at := [];
    } else {
      at := RepeatTurns(due, turns, n - 1);
      if turns[n - 1].now >= NextHello(due, turns, n - 1) {
        ghost var init := at;
        at := at + [n - 1];
        assert at[..|at| - 1] == init;
      }
    }
  }

  /** wait_for_start over the turns that happen before it returns; StillWaiting
      when it has not returned after them. Readings are those of one clock, and
      the two before the loop set the deadline and the first retransmission. */
  method WaitForStart(sock: Socket, trial: u32, hello: seq<byte>, t0: int, t1: int, turns: seq<Turn>)
    returns (r: WaitResult, used: nat, hellos: nat)
    requires t0 <= t1 && Monotone(t1, turns)
    modifies sock
    ensures hellos <= MAX_EXTRA_HELLOS
    ensures sock.sent == old(sock.sent) + Copies(hello, hellos) && sock.room == old(sock.room) - hellos
    ensures used <= |turns| && forall i :: 0 <= i < used ==> KeepsWaiting(trial, t0 + START_TIMEOUT_MS, turns[i])
    ensures r.StillWaiting? <==> used == |turns|
    ensures hellos == Repeats(t1 + HELLO_PERIOD_MS, turns,
                              if r.Started? || r.SocketFailed? then used + 1 else used)
    ensures r.Started? ==>
      IsStart(trial, turns[used])
      && r.start == ParseMessage(Truncated(turns[used].poll.data, RECV_BUF_LEN)).value.(payload := [])
    ensures r.TimedOut? ==> turns[used].check >= t0 + START_TIMEOUT_MS
    ensures r.SocketFailed? ==> turns[used].poll.PollError? || turns[used].poll.RecvError?
    ensures r.SendFailed? ==> sock.room == 0
  {
    var deadline := t0 + START_TIMEOUT_MS;
    var nextHello := t1 + HELLO_PERIOD_MS;
    used, hellos := 0, 0;
    ghost var since := t1;
    while used < |turns|
      invariant used <= |turns| && Monotone(since, turns[used..]) && t0 <= t1 <= since
      invariant sock.sent == old(sock.sent) + Copies(hello, hellos) && sock.room == old(sock.room) - hellos
      invariant nextHello - HELLO_PERIOD_MS <= since
      invariant nextHello >= t1 + (hellos + 1) * HELLO_PERIOD_MS
      invariant hellos <= MAX_EXTRA_HELLOS
      invariant nextHello == NextHello(t1 + HELLO_PERIOD_MS, turns, used)
      invariant hellos == Repeats(t1 + HELLO_PERIOD_MS, turns, used)
      invariant forall i :: 0 <= i < used ==> KeepsWaiting(trial, deadline, turns[i])
      decreases |turns| - used
    {
      var turn := turns[used];
      assert turns[used..][1..] == turns[used + 1..];
      if turn.check >= deadline {
        return TimedOut, used, hellos;
      }
      if turn.now >= nextHello {
        var ok := sock.Send(hello);
        if !ok {
          return WaitResult.SendFailed, used, hellos;
        }
        assert Copies(hello, hellos + 1) == Copies(hello, hellos) + [hello];
        hellos := hellos + 1;
        nextHello := turn.now + HELLO_PERIOD_MS;
      }
      match turn.poll {
        case PollError => return SocketFailed, used, hellos;
        case RecvError => return SocketFailed, used, hellos;
        case Quiet =>
        case Got(data) =>
          var parsed := ParseMessage(Truncated(data, RECV_BUF_LEN));
          if parsed.Some? && parsed.value.kind == START && parsed.value.trial == trial {
            return Started(parsed.value.(payload := [])), used, hellos;
          }
      }
      since := turn.now;
      used := used + 1;
    }
    r := StillWaiting;
  }

  /** Build-time numbers; buffers and one chunk fit 32 bits. */
  datatype ClientConfig = ClientConfig(limits: Limits, chunk: nat, bursts: u32, intervalUs: u32)
  {
    predicate Valid() {
      limits.Valid() && 1 <= chunk && limits.maxSampleBytes + chunk < U32_LIMIT && limits.maxBursts + chunk < U32_LIMIT
    }
  }

  /** "AEBBOOT1", the end of a HELLO's public nonce behind trial and uptime. */
  const NONCE_TEXT: seq<byte> := [0x41, 0x45, 0x42, 0x42, 0x4F, 0x4F, 0x54, 0x31]

  /** What the network and the clocks do during one trial of the client. */
  datatype Environment = Environment(
    uptimeMs: u32,
    t0: int,
    t1: int,
    turns: seq<Turn>,
    sampleStart: nat,
    arrivals: seq<Arrival>,
    sampleEnd: nat,
    transcriptOk: bool,
    hashesOk: bool)

  datatype TrialEnd = NoStart | TrialFailed | Uploaded(start: Message, upload: UploadEnd)

  /** Nothing but the HELLO, at most ten repeats of it, was sent. */
  ghost predicate HellosOnly(was: seq<seq<byte>>, hello: seq<byte>, sent: seq<seq<byte>>, room0: nat, room: nat) {
    exists n: nat :: n <= 1 + MAX_EXTRA_HELLOS && n <= room0 && sent == was + Copies(hello, n) && room == room0 - n
  }

  /** What was sent before an upload: the HELLO, at most ten repeats of it, and
      the result line unless the socket refused it. */
  ghost predicate Announced(was: seq<seq<byte>>, hello: seq<byte>, resultLine: seq<byte>, sent: seq<seq<byte>>,
                            room0: nat, room: nat) {
    exists n: nat ::
      && 1 <= n <= 1 + MAX_EXTRA_HELLOS && n <= room0
      && sent == was + Copies(hello, n) + (if room0 > n then [resultLine] else [])
      && room == room0 - |sent| + |was|
  }

  lemma AnnouncedBy(was: seq<seq<byte>>, hello: seq<byte>, resultLine: seq<byte>, n: nat, room0: nat)
    requires 1 <= n <= 1 + MAX_EXTRA_HELLOS && n <= room0
    ensures
      room0 == n ==> Announced(was, hello, resultLine, was + Copies(hello, n), room0, 0)
    ensures
      room0 > n ==> Announced(was, hello, resultLine, was + Copies(hello, n) + [resultLine], room0, room0 - n - 1)
  {
    assert was + Copies(hello, n) + [] == was + Copies(hello, n);
  }

  /** The opening of a trial: one HELLO, then the wait for its START. */
  method Handshake(sock: Socket, trial: u32, hello: seq<byte>, t0: int, t1: int, turns: seq<Turn>)
    returns (start: Option<Message>, n: nat)
    requires t0 <= t1 && Monotone(t1, turns)
    modifies sock
    ensures start.Some? ==> start.value.kind == START && start.value.trial == trial
    ensures n <= 1 + MAX_EXTRA_HELLOS && (start.Some? ==> 1 <= n)
    ensures n <= old(sock.room) && sock.sent == old(sock.sent) + Copies(hello, n) && sock.room == old(sock.room) - n
  {
    start, n := None, 0;
    var ok := sock.Send(hello);
    if !ok {
      return;
    }
    var waited, used, hellos := WaitForStart(sock, trial, hello, t0, t1, turns);
    n := 1 + hellos;
    assert Copies(hello, n) == [hello] + Copies(hello, hellos);
    if waited.Started? {
      start := Some(waited.start);
    }
  }

  /** What the trial that this START asks for reads from the source. */
  ghost function RawOf(c: ClientConfig, dev: EntropyDevice, pos: nat, start: Message): seq<byte> {
    dev.Slice(pos, Requested(c.limits, start))
  }

  /** The deltas of its accepted packets. */
  ghost function DeltasOf(c: ClientConfig, env: Environment, start: Message): seq<u32>
    requires c.Valid()
  {
    Deltas(c.limits, CyclesNow(env.sampleStart),
           Accepted(start.trial, env.arrivals, Min(start.seqOrCount, c.limits.maxBursts)))
  }

  /** The datagrams that leave the socket between two of its states belong to the
      upload of these buffers, up to the first send that fails. */
  ghost predicate Uploads(c: ClientConfig, start: Message, raw: seq<byte>, deltas: seq<u32>, end: UploadEnd,
                          before: seq<seq<byte>>, room: nat, sent: seq<seq<byte>>, left: nat) {
    && Fits(c.chunk, |raw|, |deltas|)
    && if Overruns(c.chunk, |deltas|) then
         end != Sent && Took(before, room, sent, left, Wire(UploadHead(start, c.chunk, raw)), end == Overran)
       else
         end != Overran && Took(before, room, sent, left, Wire(Upload(start, c.chunk, raw, deltas)), end == Sent)
  }

  /** One iteration of client_hello_loop: HELLO, wait for START, sample, report,
      upload. No entropy is read before a START, and a trial that ends early has
      sent HELLOs only. When the trial gets that far, the datagrams after the
      HELLOs are its own report and the upload of exactly the source bytes and
      deltas that the trial measured, under the trial number of the HELLO. */
  method ClientTrial(c: ClientConfig, h: Hashing, sock: Socket, tx: array<byte>, dev: EntropyDevice, trial: u32,
                     env: Environment, rawBuf: array<byte>, jitterUs: array<u32>)
    returns (end: TrialEnd, ghost report: Option<Report>, ghost before: seq<seq<byte>>, ghost room: nat)
    requires c.Valid() && rawBuf.Length == c.limits.maxSampleBytes && jitterUs.Length == c.limits.maxBursts
    requires tx.Length == HEADER_LEN + c.chunk && tx != rawBuf
    requires env.t0 <= env.t1 && Monotone(env.t1, env.turns)
    modifies sock, tx, dev, rawBuf, jitterUs
    ensures end.Uploaded? ==>
      var start := end.start;
      var raw, deltas := RawOf(c, dev, old(dev.pos), start), DeltasOf(c, env, start);
      && start.kind == START && start.trial == trial && dev.pos == old(dev.pos) + |raw|
      && Uploads(c, start, raw, deltas, end.upload, before, room, sock.sent, sock.room)
      && report.Some? && Describes(c.limits, h, report.value, start, raw, deltas) && Bounded(report.value)
    ensures
      var nonce := Le(4, trial) + Le(4, env.uptimeMs) + NONCE_TEXT;
      var hello := Message(HELLO, trial, c.bursts, c.intervalUs, c.limits.maxSampleBytes, nonce, []);
      if end.Uploaded? then
        Announced(old(sock.sent), MakeMessage(hello), ReportWire(report.value), before, old(sock.room), room)
      else
        HellosOnly(old(sock.sent), MakeMessage(hello), sock.sent, old(sock.room), sock.room)
    ensures end.NoStart? ==> dev.pos == old(dev.pos) && dev.calls == old(dev.calls)
    ensures end.NoStart? ==> rawBuf[..] == old(rawBuf[..]) && jitterUs[..] == old(jitterUs[..])
  {
    report, before, room := None, [], 0;
    var nonce := Le(4, trial) + Le(4, env.uptimeMs) + NONCE_TEXT;
    var hello := MakeMessage(Message(HELLO, trial, c.bursts, c.intervalUs, c.limits.maxSampleBytes, nonce, []));
    var reply, n := Handshake(sock, trial, hello, env.t0, env.t1, env.turns);
    if reply.None? {
      return NoStart, report, before, room;
    }
    var start := reply.value;
    var sampled := RunTrial(c.limits, dev, start, env.sampleStart, env.arrivals, env.transcriptOk, env.hashesOk,
                            rawBuf, jitterUs);
    if sampled.Failed? {
      return TrialFailed, report, before, room;
    }
    var line := MakeReport(c.limits, h, start, env.sampleStart, env.sampleEnd, rawBuf, sampled.rawLen,
                           jitterUs, sampled.jitterCount);
    report := Some(line);
    var ok := sock.Send(ReportWire(line));
    before, room := sock.sent, sock.room;
    AnnouncedBy(old(sock.sent), hello, ReportWire(line), n, old(sock.room));
    var upload := SendRawStream(sock, tx, c.chunk, start, rawBuf, sampled.rawLen, jitterUs, sampled.jitterCount);
    end := Uploaded(start, upload);
  }
}
