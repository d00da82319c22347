/** The host side of a raw capture: scanning a serial stream for the start
    marker while throwing finished lines away, then collecting a bounded number
    of payload bytes.  The stream arrives in reads of any size. */
module MarkerScan {
  import opened Bytes
  import opened CaptureMeta

  /** "[BENCH_RAW_START]" in ASCII. */
  const MARKER: seq<byte> :=
    [91, 66, 69, 78, 67, 72, 95, 82, 65, 87, 95, 83, 84, 65, 82, 84, 93]
  const SCAN_READ := 256
  const SCAN_LIMIT := 4096
  const COLLECT_READ := 65536

  predicate MarkerAt(s: seq<byte>, i: nat) {
    i + |MARKER| <= |s| && s[i..i + |MARKER|] == MARKER
  }

  predicate NoMarkerBelow(s: seq<byte>, limit: nat) {
    forall i: nat :: i < limit ==> !MarkerAt(s, i)
  }

  /** No marker of s has arrived whole with the first `used` bytes. */
  predicate NoMarkerWithin(s: seq<byte>, used: nat) {
    forall i: nat :: i + |MARKER| <= used ==> !MarkerAt(s, i)
  }

  /** The first marker of s starts at p. */
  predicate FirstMarker(s: seq<byte>, p: nat) {
    MarkerAt(s, p) && NoMarkerBelow(s, p)
  }

  /** bytearray.find(marker). */
  function Find(s: seq<byte>, from: nat): (r: Option<nat>)
    requires from <= |s|
    ensures r.None? ==> forall i: nat :: from <= i ==> !MarkerAt(s, i)
    ensures r.Some? ==> MarkerAt(s, r.value) && from <= r.value
    ensures r.Some? ==> forall i: nat :: from <= i < r.value ==> !MarkerAt(s, i)
    ensures from == 0 && r.Some? ==> NoMarkerBelow(s, r.value)
    decreases |s| - from
  {
    if MarkerAt(s, from) then Some(from)
    else if from == |s| then None
    else Find(s, from + 1)
  }

  predicate IsBreak(b: byte) {
    b == CR || b == LF
  }

  /** The marker, as text. */
  lemma MarkerWord()
    ensures |MARKER| == 17 && Begins(MARKER, "[BENCH_RAW_START]")
  {
  }

  /** How many bytes at the front of s are carriage returns or line feeds. */
  function LeadingBreaks(s: seq<byte>): (k: nat)
    ensures k <= |s|
    ensures forall i :: 0 <= i < k ==> IsBreak(s[i])
    ensures k < |s| ==> !IsBreak(s[k])
  {
    if s == [] || !IsBreak(s[0]) then 0 else 1 + LeadingBreaks(s[1..])
  }

  lemma LeadingBreaksIs(s: seq<byte>, k: nat)
    requires k <= |s|
    requires forall i :: 0 <= i < k ==> IsBreak(s[i])
    requires k < |s| ==> !IsBreak(s[k])
    ensures LeadingBreaks(s) == k
  {
  }

  // ------------------------------------------------------------ the port

  /** What one call of `read` meets: how many bytes arrive before the port's
      timeout, whether the start-up deadline has passed, and whether a quarter
      of a second has passed since a trigger was put off. */
  datatype Poll = Poll(available: nat, late: bool, due: bool)

  /** The read numbered `calls` took the port from `before` to `used` bytes. */
  predicate LastRead(polls: seq<Poll>, total: nat, calls: nat, before: nat, used: nat) {
    && 0 < calls <= |polls| && before <= used <= total
    && used - before == Min(SCAN_READ, Min(polls[calls - 1].available, total - before))
  }

  /** A serial port that will deliver `stream`, in portions `polls` decides. */
  class SerialPort {
    const stream: seq<byte>
    const polls: seq<Poll>
    var used: nat
    var calls: nat
    var written: seq<byte>

    constructor (stream: seq<byte>, polls: seq<Poll>)
      ensures this.stream == stream && this.polls == polls
      ensures used == 0 && calls == 0 && written == []
    {
      this.stream, this.polls := stream, polls;
      used, calls, written := 0, 0, [];
    }

    method Read(n: nat) returns (data: seq<byte>)
      requires used <= |stream| && calls < |polls|
      modifies this`used, this`calls
      ensures calls == old(calls) + 1
      ensures used == old(used) + Min(n, Min(polls[old(calls)].available, |stream| - old(used)))
      ensures n == SCAN_READ ==> LastRead(polls, |stream|, calls, old(used), used)
      ensures old(used) <= used <= |stream| && data == stream[old(used)..used]
    {
      var take := Min(n, Min(polls[calls].available, |stream| - used));
      data := stream[used..used + take];
      used, calls := used + take, calls + 1;
    }

    method Write(b: byte)
      modifies this`written
      ensures written == old(written) + [b]
    {
      written := written + [b];
    }
  }

  // ------------------------------------------------------------ the scan

  /** Bytes before d have been thrown away and bytes from `used` on have not
      arrived; no marker starts before d or ends by `used`. */
  ghost predicate Scanned(s: seq<byte>, d: nat, used: nat) {
    && d <= used <= |s|
    && NoMarkerBelow(s, d)
    && NoMarkerWithin(s, used)
  }

  /** A marker holds no line feed, so none straddles the end of a line. */
  lemma NoMarkerAcross(s: seq<byte>, i: nat, j: nat)
    requires i <= j < i + |MARKER| && j < |s| && s[j] == LF
    ensures !MarkerAt(s, i)
  {
    assert forall k :: 0 <= k < |MARKER| ==> MARKER[k] != LF;
    if i + |MARKER| <= |s| {
      assert s[i..i + |MARKER|][j - i] == LF;
    }
  }

  lemma DropLine(s: seq<byte>, d: nat, used: nat, j: nat)
    requires Scanned(s, d, used) && d <= j < used && s[j] == LF
    ensures Scanned(s, j + 1, used)
  {
    forall i: nat | i < j + 1
      ensures !MarkerAt(s, i)
    {
      if d <= i && j < i + |MARKER| {
        NoMarkerAcross(s, i, j);
      }
    }
  }

  lemma DropOld(s: seq<byte>, d: nat, used: nat, e: nat)
    requires Scanned(s, d, used) && d <= e && e + |MARKER| <= used
    ensures Scanned(s, e, used)
  {
  }

  /** A marker inside the buffer is a marker of the stream. */
  lemma BufferMarkers(s: seq<byte>, d: nat, used: nat, i: nat)
    requires d <= i && i + |MARKER| <= used <= |s|
    ensures MarkerAt(s, i) == MarkerAt(s[d..used], i - d)
  {
    SliceOfSlice(s, d, used, i - d, i - d + |MARKER|);
  }

  lemma BufferClean(s: seq<byte>, d: nat, was: nat, used: nat)
    requires Scanned(s, d, was) && was <= used <= |s|
    requires forall i: nat :: !MarkerAt(s[d..used], i)
    ensures Scanned(s, d, used)
  {
    forall i: nat | i + |MARKER| <= used
      ensures !MarkerAt(s, i)
    {
      if d <= i {
        BufferMarkers(s, d, used, i);
      }
    }
  }

  lemma BufferHit(s: seq<byte>, d: nat, was: nat, used: nat, f: nat)
    requires Scanned(s, d, was) && was <= used <= |s|
    requires MarkerAt(s[d..used], f)
    requires NoMarkerBelow(s[d..used], f)
    ensures FirstMarker(s, d + f) && was < d + f + |MARKER| <= used
  {
    BufferMarkers(s, d, used, d + f);
    forall i: nat | i < d + f
      ensures !MarkerAt(s, i)
    {
      if d <= i {
        BufferMarkers(s, d, used, i);
      }
    }
  }

  method IndexOfLf(s: seq<byte>) returns (r: Option<nat>)
    ensures r.None? <==> LF !in s
    ensures r.Some? ==> r.value < |s| && s[r.value] == LF && LF !in s[..r.value]
  {
    var i := 0;
    while i < |s|
      invariant 0 <= i <= |s| && LF !in s[..i]
    {
      if s[i] == LF {
        return Some(i);
      }
      i := i + 1;
    }
    assert s[..i] == s;
    r := None;
  }

  // ---- what the lines say ----

  /** A line of more than 4096 bytes among the first n: the scan may have cut it. */
  ghost predicate LongLine(s: seq<byte>, n: nat)
    requires n <= |s|
  {
    exists k: nat :: k <= n && k - LineStart(s, k) > SCAN_LIMIT
  }

  /** The buffer starts with a line, or still holds a marker's length. */
  ghost predicate Anchored(s: seq<byte>, d: nat, used: nat) {
    d <= used <= |s| && (d + |MARKER| <= used || StartsLine(s, d))
  }

  ghost predicate StartsLine(s: seq<byte>, d: nat) {
    d <= |s| && (d == 0 || s[d - 1] == LF)
  }

  /** An occurrence of the armed text that was not there before is in the buffer. */
  lemma ArmedInBuffer(s: seq<byte>, d: nat, was: nat, used: nat, i: nat)
    requires Anchored(s, d, was) && was <= used <= |s| && ArmedAt(s, i) && was < i + |ARMED| <= used
    ensures d <= i && ArmedAt(s[d..used], i - d)
  {
    if i < d {
      NoArmedAcross(s, i, d - 1);
    }
    SliceOfSlice(s, d, used, i - d, i - d + |ARMED|);
  }

  lemma ArmedInside(s: seq<byte>, d: nat, n: nat, used: nat)
    requires d <= n <= used <= |s| && HasArmed(s[d..n])
    ensures ArmedWithin(s, used)
  {
    var i: nat :| i < n - d && ArmedAt(s[d..n], i);
    SliceOfSlice(s, d, n, i, i + |ARMED|);
    assert ArmedAt(s, d + i);
  }

  lemma ArmedIff(s: seq<byte>, d: nat, was: nat, used: nat)
    requires Anchored(s, d, was) && was <= used <= |s|
    ensures ArmedWithin(s, used) <==> ArmedWithin(s, was) || HasArmed(s[d..used])
  {
    if ArmedWithin(s, used) && !ArmedWithin(s, was) {
      var i: nat :| i + |ARMED| <= used && ArmedAt(s, i);
      ArmedInBuffer(s, d, was, used, i);
      assert ArmedAt(s[d..used], i - d);
    }
    if HasArmed(s[d..used]) {
      ArmedInside(s, d, used, used);
    }
  }

  /** A line that starts with the armed text adds nothing to the search of the
      buffer. */
  lemma ArmedLine(s: seq<byte>, e: nat, j: nat, used: nat, line: seq<byte>)
    requires e <= j <= used <= |s| && line == s[e..j]
    ensures SaysArmed(line) ==> ArmedWithin(s, used)
  {
    if SaysArmed(line) {
      SaysArmedHas(line);
      ArmedInside(s, e, j, used);
    }
  }

  /** The lines between d and e have been listened to, starting from `known`. */
  ghost predicate Heard(l: Listener, s: seq<byte>, d: nat, known: Facts, e: nat, facts: Facts) {
    && d <= e <= |s| && (e == d || StartsLine(s, e)) && (known.ip ==> facts.ip)
    && (StartsLine(s, d) && known == FactsAt(l, s, d) ==> facts == FactsAt(l, s, e))
  }

  /** One more line, up to position n. */
  lemma HeardOn(l: Listener, s: seq<byte>, d: nat, known: Facts, e: nat, facts: Facts, n: nat, line: seq<byte>,
                after: Facts)
    requires Heard(l, s, d, known, e, facts) && e < n <= |s| && s[n - 1] == LF && LF !in line && line == s[e..n - 1]
    requires l.KeepsAddress() && after == l.hear(facts, line)
    ensures Heard(l, s, d, known, n, after)
  {
    if StartsLine(s, d) && known == FactsAt(l, s, d) {
      LineEnds(l, s, e, n, line, facts, after);
    }
  }

  lemma LineParts(s: seq<byte>, e: nat, used: nat, buf: seq<byte>, n: nat, line: seq<byte>, rest: seq<byte>)
    requires e < n <= used <= |s| && buf == s[e..used] && line == buf[..n - 1 - e] && rest == buf[n - e..]
    ensures line == s[e..n - 1] && rest == s[n..used] && s[n - 1] == buf[n - 1 - e]
  {
  }

  /** All that follows from a line's end at n. */
  lemma LineIsIn(l: Listener, s: seq<byte>, d: nat, known: Facts, e: nat, used: nat, buf: seq<byte>, was: Facts,
                 n: nat, line: seq<byte>, rest: seq<byte>, after: Facts)
    requires Scanned(s, e, used) && buf == s[e..used] && Heard(l, s, d, known, e, was) && e < n <= used
    requires line == buf[..n - 1 - e] && rest == buf[n - e..] && buf[n - 1 - e] == LF && LF !in line
    requires l.KeepsAddress() && after == l.hear(was, line)
    ensures Scanned(s, n, used) && rest == s[n..used] && Heard(l, s, d, known, n, after)
    ensures SaysArmed(line) ==> ArmedWithin(s, used)
  {
    LineParts(s, e, used, buf, n, line, rest);
    DropLine(s, e, used, n - 1);
    HeardOn(l, s, d, known, e, was, n, line, after);
    ArmedLine(s, e, n - 1, used, line);
  }

  /** The first line of the buffer ends at `at`. */
  method DropOne(l: Listener, ghost s: seq<byte>, ghost d: nat, ghost known: Facts, ghost e: nat, ghost used: nat,
                 buf: seq<byte>, at: nat, was: Facts)
    returns (ghost n: nat, rest: seq<byte>, facts: Facts, armed: bool)
    requires Scanned(s, e, used) && buf == s[e..used] && Heard(l, s, d, known, e, was)
    requires l.KeepsAddress() && at < |buf| && buf[at] == LF && LF !in buf[..at]
    ensures Scanned(s, n, used) && rest == s[n..used] && |rest| < |buf|
    ensures Heard(l, s, d, known, n, facts) && (armed ==> ArmedWithin(s, used))
  {
    var line := buf[..at];
    n := e + at + 1;
    rest, facts, armed := buf[at + 1..], l.hear(was, line), SaysArmed(line);
    LineIsIn(l, s, d, known, e, used, buf, was, n, line, rest, facts);
  }

  /** `while b"\n" in scan_buf`: every finished line goes, and is listened to. */
  method DropLines(l: Listener, ghost s: seq<byte>, ghost d: nat, ghost used: nat, buf: seq<byte>, known: Facts)
    returns (ghost e: nat, rest: seq<byte>, facts: Facts, armed: bool)
    requires l.KeepsAddress() && Scanned(s, d, used) && buf == s[d..used]
    ensures Scanned(s, e, used) && rest == s[e..used] && LF !in rest
    ensures Heard(l, s, d, known, e, facts) && (armed ==> ArmedWithin(s, used))
  {
    e, rest, facts, armed := d, buf, known, false;
    var at: Option<nat> := IndexOfLf(rest);
    while at.Some?
      invariant Scanned(s, e, used) && rest == s[e..used]
      invariant Heard(l, s, d, known, e, facts) && (armed ==> ArmedWithin(s, used))
      invariant at.None? <==> LF !in rest
      invariant at.Some? ==> at.value < |rest| && rest[at.value] == LF && LF !in rest[..at.value]
      decreases |rest|
    {
      var noted;
      e, rest, facts, noted := DropOne(l, s, d, known, e, used, rest, at.value, facts);
      armed := armed || noted;
      at := IndexOfLf(rest);
    }
  }

  datatype Scan = Started(tail: seq<byte>) | StartupTimeout | StillScanning

  /** The loop that steps over carriage returns and line feeds already
      buffered behind the marker. */
  method SkipBreaks(buf: seq<byte>, from: nat) returns (to: nat)
    requires from <= |buf|
    ensures to == from + LeadingBreaks(buf[from..])
  {
    to := from;
    while to < |buf| && IsBreak(buf[to])
      invariant from <= to <= |buf|
      invariant forall i :: from <= i < to ==> IsBreak(buf[i])
    {
      to := to + 1;
    }
    LeadingBreaksIs(buf[from..], to - from);
  }

  /** What the scan hands to the collection: everything that arrived after the
      first marker, less the line breaks in front of it.  `before` and `used`
      are the bytes received before and after the read that stopped the scan. */
  ghost predicate StopsAtFirst(s: seq<byte>, before: nat, used: nat, tail: seq<byte>) {
    exists p: nat ::
      && FirstMarker(s, p)
      && before < p + |MARKER| <= used <= |s|
      && tail == s[p + |MARKER|..used][LeadingBreaks(s[p + |MARKER|..used])..]
  }

  method TailBehind(ghost s: seq<byte>, ghost d: nat, ghost before: nat, ghost used: nat,
                    buf: seq<byte>, at: nat)
    returns (tail: seq<byte>)
    requires Scanned(s, d, before) && before <= used <= |s| && buf == s[d..used]
    requires MarkerAt(buf, at) && NoMarkerBelow(buf, at)
    ensures StopsAtFirst(s, before, used, tail)
  {
    BufferHit(s, d, before, used, at);
    var to := SkipBreaks(buf, at + |MARKER|);
    TailIs(s, d, used, at + |MARKER|, to);
    tail := buf[to..];
  }

  /** What is known of the lines in front of the buffer, unless an overlong one
      was cut. */
  ghost predicate Knows(l: Listener, s: seq<byte>, d: nat, used: nat, facts: Facts)
    requires used <= |s|
  {
    LongLine(s, used) || (StartsLine(s, d) && d <= used && LF !in s[d..used] && facts == FactsAt(l, s, d))
  }

  /** All that the scan has learned from the first n bytes. */
  ghost predicate Learned(h: Host, l: Listener, s: seq<byte>, n: nat, g: Progress) {
    n <= |s| && Tracks(h, s, n, g) && (LongLine(s, n) || g.facts == FactsAt(l, s, n))
  }

  lemma KnownIsLearned(h: Host, l: Listener, s: seq<byte>, d: nat, n: nat, g: Progress)
    requires n <= |s| && Knows(l, s, d, n, g.facts) && Tracks(h, s, n, g)
    ensures Learned(h, l, s, n, g)
  {
    if !LongLine(s, n) {
      SameFacts(l, s, d, n);
    }
  }

  lemma CutIsLong(s: seq<byte>, e: nat, used: nat)
    requires e <= used <= |s| && StartsLine(s, e) && LF !in s[e..used] && used - e > SCAN_LIMIT
    ensures LongLine(s, used)
  {
    LineStartIs(s, e, used);
  }

  /** An overlong buffer is cut back to a marker's length. */
  method CutBack(ghost l: Listener, ghost s: seq<byte>, ghost d: nat, ghost used: nat, buf: seq<byte>,
                  ghost facts: Facts)
    returns (ghost e: nat, rest: seq<byte>)
    requires Scanned(s, d, used) && buf == s[d..used] && LF !in buf && Anchored(s, d, used)
    requires Knows(l, s, d, used, facts)
    ensures Scanned(s, e, used) && rest == s[e..used] && LF !in rest && Anchored(s, e, used)
    ensures Knows(l, s, e, used, facts) && |rest| <= SCAN_LIMIT
  {
    e, rest := d, buf;
    if |buf| > SCAN_LIMIT {
      DropOld(s, d, used, used - |MARKER|);
      SliceOfSlice(s, d, used, |buf| - |MARKER|, |buf|);
      if !LongLine(s, used) {
        CutIsLong(s, d, used);
      }
      e, rest := used - |MARKER|, buf[|buf| - |MARKER|..];
    }
  }

  lemma HeardIsKnown(l: Listener, s: seq<byte>, d: nat, was: nat, known: Facts, e: nat, used: nat, facts: Facts)
    requires was <= used <= |s| && Knows(l, s, d, was, known) && Heard(l, s, d, known, e, facts)
    requires e <= used && LF !in s[e..used]
    ensures Knows(l, s, e, used, facts)
  {
    if LongLine(s, was) {
      var k: nat :| k <= was && k - LineStart(s, k) > SCAN_LIMIT;
      assert LongLine(s, used);
    }
  }

  /** The end of an iteration: finished lines go, the trigger is sent when it is
      due, and unless that was put off an overlong buffer is cut. */
  method Digest(h: Host, l: Listener, ghost s: seq<byte>, ghost d: nat, ghost was: nat, ghost used: nat,
                buf: seq<byte>, due: bool, g: Progress)
    returns (ghost e: nat, rest: seq<byte>, n: Progress)
    requires Scanned(s, d, used) && buf == s[d..used] && Anchored(s, d, was) && was <= used
    requires l.KeepsAddress() && Tracks(h, s, was, g) && Knows(l, s, d, was, g.facts)
    ensures Scanned(s, e, used) && rest == s[e..used] && Anchored(s, e, used)
    ensures Tracks(h, s, used, n) && Knows(l, s, e, used, n.facts) && (g.sent ==> n.sent)
    ensures LF !in rest && (|rest| <= SCAN_LIMIT || h.udpBurst)
  {
    ArmedIff(s, d, was, used);
    var facts, noted;
    e, rest, facts, noted := DropLines(l, s, d, used, buf, g.facts);
    HeardIsKnown(l, s, d, was, g.facts, e, used, facts);
    var armed := g.armed || HasArmed(buf) || noted;
    var before := Progress(facts, armed, g.tried, g.sent);
    n := Triggered(h, before, due);
    StaysOnTrack(h, s, was, used, g, facts, armed, due);
    if !before.Defers(h, due) {
      e, rest := CutBack(l, s, e, used, rest, facts);
    }
  }

  /** The scan between two reads. */
  ghost predicate Scans(h: Host, l: Listener, s: seq<byte>, d: nat, used: nat, buf: seq<byte>, g: Progress) {
    && Scanned(s, d, used) && buf == s[d..used] && Anchored(s, d, used)
    && Tracks(h, s, used, g) && Knows(l, s, d, used, g.facts)
  }

  lemma ScanStarts(h: Host, l: Listener, s: seq<byte>)
    requires l.start == Facts(None, h.ip)
    ensures Scans(h, l, s, 0, 0, [], Progress(l.start, false, false, false))
  {
  }

  /** What a read brought is searched, and digested if it completes no marker. */
  method ScanData(h: Host, l: Listener, ghost s: seq<byte>, ghost d: nat, ghost was: nat, ghost used: nat,
                  buf: seq<byte>, data: seq<byte>, due: bool, g: Progress)
    returns (tail: Option<seq<byte>>, ghost e: nat, rest: seq<byte>, n: Progress)
    requires l.KeepsAddress() && Scans(h, l, s, d, was, buf, g) && was <= used <= |s| && data == s[was..used]
    ensures tail.Some? ==> StopsAtFirst(s, was, used, tail.value) && n == g
    ensures tail.None? ==> Scans(h, l, s, e, used, rest, n) && (g.sent ==> n.sent)
  {
    Adjoin(s, d, was, used);
    var all := buf + data;
    e, rest, n := d, all, g;
    var found := Find(all, 0);
    if found.Some? {
      var behind := TailBehind(s, d, was, used, all, found.value);
      return Some(behind), e, rest, n;
    }
    BufferClean(s, d, was, used);
    e, rest, n := Digest(h, l, s, d, was, used, all, due, g);
    tail := None;
  }

  /** The scan stops in the read that completes the first marker of the whole
      stream, however the stream was cut up, and in no other. */
  method ScanForMarker(port: SerialPort, h: Host, l: Listener) returns (r: Scan, ghost before: nat, g: Progress)
    requires port.used == 0 && port.written == []
    requires l.KeepsAddress() && l.start == Facts(None, h.ip)
    modifies port
    ensures port.used <= |port.stream| && old(port.calls) <= port.calls
    ensures r.Started? ==> LastRead(port.polls, |port.stream|, port.calls, before, port.used)
    ensures r.Started? ==> StopsAtFirst(port.stream, before, port.used, r.tail)
    ensures !r.Started? ==> NoMarkerWithin(port.stream, port.used)
    ensures r.StartupTimeout? ==> 0 < port.calls <= |port.polls| && port.polls[port.calls - 1].late
    ensures r.StillScanning? ==> port.calls >= |port.polls|
    ensures Learned(h, l, port.stream, if r.Started? then before else port.used, g)
    ensures port.written == if g.sent then [TRIGGER] else []
  {
    var buf: seq<byte> := [];
    ghost var d: nat := 0;
    before := 0;
    g := Progress(l.start, false, false, false);
    ScanStarts(h, l, port.stream);
    while port.calls < |port.polls|
      invariant old(port.calls) <= port.calls && before <= port.used <= |port.stream|
      invariant Scans(h, l, port.stream, d, port.used, buf, g)
      invariant port.written == if g.sent then [TRIGGER] else []
      decreases |port.polls| - port.calls
    {
      before := port.used;
      KnownIsLearned(h, l, port.stream, d, before, g);
      var poll := port.polls[port.calls];
      var data := port.Read(SCAN_READ);
      if data == [] {
        if poll.late {
          return StartupTimeout, before, g;
        }
        continue;
      }
      var was := g.sent;
      var tail;
      tail, d, buf, g := ScanData(h, l, port.stream, d, before, port.used, buf, data, poll.due, g);
      if tail.Some? {
        return Started(tail.value), before, g;
      }
      if g.sent && !was {
        port.Write(TRIGGER);
      }
    }
    KnownIsLearned(h, l, port.stream, d, port.used, g);
    r := StillScanning;
  }

  lemma TailIs(s: seq<byte>, d: nat, used: nat, from: nat, to: nat)
    requires d <= used <= |s| && from <= used - d
    requires to == from + LeadingBreaks(s[d..used][from..])
    ensures s[d..used][from..] == s[d + from..used]
    ensures s[d..used][to..] == s[d + from..used][LeadingBreaks(s[d + from..used])..]
  {
    assert s[d..used][from..] == s[d + from..used];
    assert s[d..used][to..] == s[d..used][from..][to - from..];
  }

  // ------------------------------------------------------------ the collection

  datatype Collect = Collected(file: seq<byte>) | Stalled(file: seq<byte>) | StillCollecting(file: seq<byte>)

  /** tail[:target]; a negative target counts from the end. */
  function Head(tail: seq<byte>, target: int): seq<byte> {
    if target >= 0 then tail[..Min(|tail|, target)]
    else if |tail| + target > 0 then tail[..|tail| + target]
    else []
  }

  /** The file holds the tail and what was read behind it since `from`, or what
      a shorter target leaves of the tail. */
  ghost predicate Holds(s: seq<byte>, from: nat, used: nat, tail: seq<byte>, target: int, file: seq<byte>) {
    && from <= used <= |s| && (target >= 0 ==> |file| <= target)
    && (|tail| <= target ==> file == tail + s[from..used])
    && (|tail| > target ==> file == Head(tail, target) && used == from)
  }

  lemma HoldsOn(s: seq<byte>, from: nat, was: nat, used: nat, tail: seq<byte>, target: int, file: seq<byte>)
    requires Holds(s, from, was, tail, target, file) && |file| < target && was <= used <= |s|
    requires used - was <= target - |file|
    ensures Holds(s, from, used, tail, target, file + s[was..used])
  {
    Adjoin(s, from, was, used);
    Associate(tail, s[from..was], s[was..used]);
  }

  /** The last n calls up to this one brought nothing. */
  ghost predicate Silent(polls: seq<Poll>, calls: nat, n: nat) {
    n <= calls <= |polls| && forall k :: calls - n <= k < calls ==> polls[k].available == 0
  }

  /** The collection writes the tail and then every later read, cut at the
      target; it gives up only when three reads in a row bring nothing. */
  method CollectBytes(port: SerialPort, tail: seq<byte>, target: int) returns (r: Collect)
    requires port.used <= |port.stream|
    modifies port`used, port`calls
    ensures Holds(port.stream, old(port.used), port.used, tail, target, r.file)
    ensures r.Collected? <==> |r.file| >= target
    ensures r.Stalled? ==> old(port.calls) + 3 <= port.calls <= |port.polls|
    ensures r.Stalled? && port.used < |port.stream| ==> Silent(port.polls, port.calls, 3)
    ensures r.StillCollecting? ==> port.calls >= |port.polls|
  {
    var file := Head(tail, target);
    var timeouts := 0;
    while |file| < target && port.calls < |port.polls|
      invariant Holds(port.stream, old(port.used), port.used, tail, target, file)
      invariant 0 <= timeouts < 3 && old(port.calls) + timeouts <= port.calls
      invariant port.calls <= |port.polls| || port.calls == old(port.calls)
      invariant port.used < |port.stream| && timeouts > 0 ==> Silent(port.polls, port.calls, timeouts)
      decreases |port.polls| - port.calls
    {
      ghost var was := port.used;
      var data := port.Read(Min(COLLECT_READ, target - |file|));
      if data == [] {
        timeouts := timeouts + 1;
        if timeouts >= 3 {
          return Stalled(file);
        }
        continue;
      }
      timeouts := 0;
      HoldsOn(port.stream, old(port.used), was, port.used, tail, target, file);
      file := file + data;
    }
    r := if |file| >= target then Collected(file) else StillCollecting(file);
  }

  /** How many line breaks the scan stepped over when the read completing the
      marker (which ends at `from`) stopped at `used`. */
  function Skipped(s: seq<byte>, from: nat, used: nat): nat
    requires from <= used <= |s|
  {
    LeadingBreaks(s[from..used])
  }

  ghost predicate Captures(s: seq<byte>, before: nat, used: nat, target: nat, file: seq<byte>) {
    exists p: nat ::
      && FirstMarker(s, p)
      && before < p + |MARKER| <= used <= |s|
      && CapturedFrom(s, p + |MARKER|, used, target, file)
  }

  ghost predicate CapturedFrom(s: seq<byte>, from: nat, used: nat, target: nat, file: seq<byte>)
    requires from <= used <= |s|
  {
    var start := from + Skipped(s, from, used);
    start + target <= |s| && file == s[start..start + target]
  }

  lemma FileIs(s: seq<byte>, from: nat, used: nat, tail: seq<byte>, end: nat, target: nat, file: seq<byte>)
    requires from <= used <= |s| && Holds(s, used, end, tail, target, file) && |file| == target
    requires tail == s[from..used][LeadingBreaks(s[from..used])..]
    ensures CapturedFrom(s, from, used, target, file)
  {
    var start: nat := from + Skipped(s, from, used);
    assert tail == s[start..used];
    if |tail| <= target {
      Adjoin(s, start, used, end);
    } else {
      SliceOfSlice(s, start, used, 0, target);
    }
  }

  lemma CaptureIs(s: seq<byte>, before: nat, used: nat, tail: seq<byte>, end: nat, target: nat, file: seq<byte>)
    requires StopsAtFirst(s, before, used, tail) && Holds(s, used, end, tail, target, file) && |file| == target
    ensures Captures(s, before, used, target, file)
  {
    var p: nat :| && FirstMarker(s, p)
                  && before < p + |MARKER| <= used <= |s|
                  && tail == s[p + |MARKER|..used][LeadingBreaks(s[p + |MARKER|..used])..];
    FileIs(s, p + |MARKER|, used, tail, end, target, file);
  }

  /** A whole capture: a successful one has written exactly the target number of
      consecutive bytes of the stream, starting behind the first marker and the
      line breaks that were buffered with it. The target is the one asked for or
      what the lines announced that had ended before the marker's read. */
  method Capture(port: SerialPort, h: Host)
    returns (scan: Scan, r: Option<Collect>, g: Progress, ghost before: nat, ghost stopped: nat)
    requires port.used == 0 && port.written == []
    modifies port
    ensures scan.Started? <==> r.Some?
    ensures scan.Started? ==> StopsAtFirst(port.stream, before, stopped, scan.tail)
    ensures scan.Started? ==> Learned(h, h.Ear(), port.stream, before, g)
    ensures port.written == if g.sent then [TRIGGER] else []
    ensures r.Some? && r.value.Collected? && Target(h, g.facts) >= 0 ==>
      |r.value.file| == Target(h, g.facts)
      && Captures(port.stream, before, stopped, Target(h, g.facts), r.value.file)
  {
    r := None;
    EarKeepsAddress(h);
    scan, before, g := ScanForMarker(port, h, h.Ear());
    stopped := port.used;
    if scan.Started? {
      var target := Target(h, g.facts);
      var c := CollectBytes(port, scan.tail, target);
      r := Some(c);
      if c.Collected? && target >= 0 {
        CaptureIs(port.stream, before, stopped, scan.tail, port.used, target, c.file);
      }
    }
  }

  lemma FirstMarkerUnique(s: seq<byte>, p: nat, q: nat)
    requires FirstMarker(s, p) && FirstMarker(s, q)
    ensures p == q
  {
  }

  // ------------------------------------------------------------ what splitting changes

  /** The scan steps over the line breaks it has: all of them, or every byte of
      the read. */
  lemma SkippedIs(s: seq<byte>, from: nat, used: nat)
    requires from <= used <= |s|
    ensures Skipped(s, from, used) == Min(LeadingBreaks(s[from..]), used - from)
  {
    var k := Min(LeadingBreaks(s[from..]), used - from);
    forall i | 0 <= i < k
      ensures IsBreak(s[from..used][i])
    {
      assert s[from..used][i] == s[from..][i];
    }
    if k < used - from {
      assert s[from..used][k] == s[from..][k];
    }
    LeadingBreaksIs(s[from..used], k);
  }

  /** Skipping all line breaks behind the marker is what makes the result
      independent of how the stream was cut up.  The capture does so exactly
      when the read that completed the marker also brought all of them. */
  lemma SplitIndependentIff(s: seq<byte>, from: nat, used: nat, target: nat, file: seq<byte>)
    requires from <= used <= |s| && 0 < target
    requires CapturedFrom(s, from, used, target, file)
    requires from + LeadingBreaks(s[from..]) + target <= |s|
    ensures CapturedFrom(s, from, |s|, target, file) <==> from + LeadingBreaks(s[from..]) <= used
  {
    SkippedIs(s, from, used);
    SkippedIs(s, from, |s|);
    var all, some := LeadingBreaks(s[from..]), Skipped(s, from, used);
    if some < all {
      assert IsBreak(s[from..][some]) && s[from..][some] == s[from + some] == file[0];
      assert !IsBreak(s[from..][all]) && s[from..][all] == s[from + all];
    }
  }

  lemma SameSkip(s: seq<byte>, from: nat, u0: nat, u1: nat, target: nat, f0: seq<byte>, f1: seq<byte>)
    requires from <= u0 <= |s| && from <= u1 <= |s|
    requires CapturedFrom(s, from, u0, target, f0) && CapturedFrom(s, from, u1, target, f1)
    requires Min(LeadingBreaks(s[from..]), u0 - from) == Min(LeadingBreaks(s[from..]), u1 - from)
    ensures f0 == f1
  {
    SkippedIs(s, from, u0);
    SkippedIs(s, from, u1);
  }

  lemma CaptureBehind(s: seq<byte>, before: nat, used: nat, target: nat, file: seq<byte>, p: nat)
    requires Captures(s, before, used, target, file) && FirstMarker(s, p) && p + |MARKER| <= used <= |s|
    ensures CapturedFrom(s, p + |MARKER|, used, target, file)
  {
    var q: nat :| && FirstMarker(s, q) && before < q + |MARKER| <= used <= |s|
                  && CapturedFrom(s, q + |MARKER|, used, target, file);
    FirstMarkerUnique(s, p, q);
  }

  /** Two captures of one stream agree unless their reads fell differently
      inside the line breaks behind the marker. */
  lemma CapturesAgree(s: seq<byte>, b0: nat, u0: nat, b1: nat, u1: nat, target: nat,
                      f0: seq<byte>, f1: seq<byte>, p: nat)
    requires Captures(s, b0, u0, target, f0) && Captures(s, b1, u1, target, f1)
    requires FirstMarker(s, p) && p + |MARKER| <= u0 <= |s| && p + |MARKER| <= u1 <= |s|
    requires Min(LeadingBreaks(s[p + |MARKER|..]), u0 - p - |MARKER|)
          == Min(LeadingBreaks(s[p + |MARKER|..]), u1 - p - |MARKER|)
    ensures f0 == f1
  {
    CaptureBehind(s, b0, u0, target, f0, p);
    CaptureBehind(s, b1, u1, target, f1, p);
    SameSkip(s, p + |MARKER|, u0, u1, target, f0, f1);
  }

  /** The firmware ends the marker's line with `eol` and sends the payload.
      Exactly the line end is stepped over if and only if the read that
      completed the marker brought the whole line end, and either stopped there
      or the payload does not start with a line break of its own. */
  lemma StepsOverLineEndIff(s: seq<byte>, from: nat, used: nat, eol: seq<byte>, payload: seq<byte>)
    requires from <= used <= |s| && s[from..] == eol + payload && payload != []
    requires forall i :: 0 <= i < |eol| ==> IsBreak(eol[i])
    ensures Skipped(s, from, used) == |eol| <==>
      from + |eol| <= used && (used == from + |eol| || !IsBreak(payload[0]))
  {
    SkippedIs(s, from, used);
    var all := LeadingBreaks(s[from..]);
    assert s[from..][|eol|] == payload[0];
    assert forall i :: 0 <= i < |eol| ==> IsBreak(s[from..][i]);
  }

  /** One stream and two ways for a port to deliver it. In one read, the file
      starts with the first payload byte; when the first read ends with the
      marker, it starts with the line feed behind it. */
  lemma SplitChangesTheFile()
    ensures
      var s := MARKER + [LF, 7, 8];
      var whole, cut := [Poll(20, false, false)], [Poll(17, false, false), Poll(3, false, false)];
      && LastRead(whole, |s|, 1, 0, 20) && Captures(s, 0, 20, 1, [7])
      && LastRead(cut, |s|, 1, 0, 17) && Captures(s, 0, 17, 1, [LF])
  {
    var s := MARKER + [LF, 7, 8];
    assert s[0..0 + |MARKER|] == MARKER;
    assert FirstMarker(s, 0);
    assert s[17..20] == [LF, 7, 8];
    assert [LF, 7, 8][1..] == [7, 8];
    assert LeadingBreaks([LF, 7, 8]) == 1;
    assert CapturedFrom(s, 0 + |MARKER|, 20, 1, [7]);
    assert s[17..17] == [];
    assert CapturedFrom(s, 0 + |MARKER|, 17, 1, [LF]);
  }
}
