/** How many bytes a raw capture collects: what the firmware announced, if the
    announcement was heard in time. */
module CaptureTarget {
  import opened Bytes
  import opened CaptureMeta
  import opened MarkerScan

  /** Without a size on the command line, the announced count is collected iff its
      line had ended in an earlier read than the one that completed the marker. */
  lemma TargetIff(h: Host, s: seq<byte>, e: nat, count: int, before: nat, g: Progress)
    requires Learned(h, h.Ear(), s, before, g) && !LongLine(s, before)
    requires h.bytes.None? && OnlyAnnouncement(s, before, e, count) && count != 0 && count != DEFAULT_BYTES
    ensures Target(h, g.facts) == count <==> e < before
    ensures Target(h, g.facts) == DEFAULT_BYTES <==> before <= e
  {
    KnownTarget(h, s, before, e, count, before, g.facts);
  }

  /** The firmware announces its count before it is armed, so a host that has
      triggered it collects exactly what was announced. */
  lemma TriggeredTarget(h: Host, s: seq<byte>, e: nat, count: int, before: nat, g: Progress)
    requires Learned(h, h.Ear(), s, before, g) && !LongLine(s, before) && g.sent
    requires h.bytes.None? && OnlyAnnouncement(s, before, e, count) && count != 0 && AnnouncesFirst(s, e)
    ensures Target(h, g.facts) == count
  {
    ArmedLater(s, e, before);
    KnownTarget(h, s, before, e, count, before, g.facts);
  }

  // ---- an announcement that is not heard ----

  /** "[BENCH_META] raw_start_delay_ms" in ASCII. */
  const DELAY_BYTES: seq<byte> :=
    [91, 66, 69, 78, 67, 72, 95, 77, 69, 84, 65, 93, 32,
     114, 97, 119, 95, 115, 116, 97, 114, 116, 95, 100, 101, 108, 97, 121, 95, 109, 115]

  /** " delay_ms," and ",trigger,G" in ASCII. */
  const DELAY_FIELD: seq<byte> := [32, 100, 101, 108, 97, 121, 95, 109, 115, 44]
  const TRIGGER_FIELD: seq<byte> := [44, 116, 114, 105, 103, 103, 101, 114, 44, 71]

  function DelayLine(delay: nat, eol: seq<byte>): seq<byte> {
    DELAY_BYTES + [44] + Digits(delay) + eol
  }

  function ArmedLine(delay: nat, eol: seq<byte>): seq<byte> {
    ARMED + DELAY_FIELD + Digits(delay) + TRIGGER_FIELD + eol
  }

  predicate OnlyCr(eol: seq<byte>) {
    forall i :: 0 <= i < |eol| ==> eol[i] == CR
  }

  /** No line feed, and no bracket but the first byte. */
  predicate Plain(line: seq<byte>) {
    && |line| > 17 && line[0] == MARKER[0]
    && forall k :: 0 < k < |line| ==> line[k] != LF && line[k] != MARKER[0]
  }

  predicate Tail(part: seq<byte>) {
    forall k :: 0 <= k < |part| ==> part[k] != LF && part[k] != MARKER[0]
  }

  lemma PlainThen(line: seq<byte>, part: seq<byte>)
    requires Plain(line) && Tail(part)
    ensures Plain(line + part) && forall k :: 0 <= k < |line| ==> (line + part)[k] == line[k]
  {
  }

  lemma MetaPlain(n: nat, eol: seq<byte>)
    requires OnlyCr(eol)
    ensures Plain(MetaLine(n, eol)) && MetaLine(n, eol)[7] != MARKER[7]
  {
    assert MARKER[0] == 91 && MARKER[7] == 82;
    assert Plain(PREFIX_BYTES) && PREFIX_BYTES[7] == 77;
    PlainThen(PREFIX_BYTES, [44]);
    PlainThen(PREFIX_BYTES + [44], Digits(n));
    PlainThen(PREFIX_BYTES + [44] + Digits(n), eol);
  }

  lemma DelayPlain(delay: nat, eol: seq<byte>)
    requires OnlyCr(eol)
    ensures Plain(DelayLine(delay, eol)) && DelayLine(delay, eol)[7] != MARKER[7] && DelayLine(delay, eol)[17] == 115
  {
    assert MARKER[0] == 91 && MARKER[7] == 82;
    assert Plain(DELAY_BYTES) && DELAY_BYTES[7] == 77 && DELAY_BYTES[17] == 115;
    PlainThen(DELAY_BYTES, [44]);
    PlainThen(DELAY_BYTES + [44], Digits(delay));
    PlainThen(DELAY_BYTES + [44] + Digits(delay), eol);
  }

  lemma ArmedPlain(delay: nat, eol: seq<byte>)
    requires OnlyCr(eol)
    ensures Plain(ArmedLine(delay, eol)) && ArmedLine(delay, eol)[11] != MARKER[11] && ArmedLine(delay, eol)[17] == 32
    ensures ArmedLine(delay, eol)[..17] == ARMED
  {
    assert MARKER[0] == 91 && MARKER[11] == 83;
    var head := ARMED + DELAY_FIELD;
    assert Plain(head) && head[11] == 65 && head[17] == 32;
    PlainThen(head, Digits(delay));
    PlainThen(head + Digits(delay), TRIGGER_FIELD);
    PlainThen(head + Digits(delay) + TRIGGER_FIELD, eol);
  }

  /** Three lines and the marker. */
  function Stream(a: seq<byte>, b: seq<byte>, c: seq<byte>): seq<byte> {
    a + [LF] + b + [LF] + c + [LF] + MARKER
  }

  /** Where its parts are. */
  lemma StreamParts(s: seq<byte>, a: seq<byte>, b: seq<byte>, c: seq<byte>, e1: nat, e2: nat, e3: nat)
    requires s == Stream(a, b, c) && e1 == |a| && e2 == e1 + 1 + |b| && e3 == e2 + 1 + |c|
    ensures |s| == e3 + 1 + |MARKER|
    ensures s[0..e1] == a && s[e1 + 1..e2] == b && s[e2 + 1..e3] == c && s[e3 + 1..] == MARKER
    ensures s[e1] == s[e2] == s[e3] == LF
  {
  }

  lemma OnlyThreeFeeds(s: seq<byte>, e1: nat, e2: nat, e3: nat, k: nat)
    requires e1 < e2 < e3 < |s| && s[e3 + 1..] == MARKER && k < |s| && k != e1 && k != e2 && k != e3
    requires LF !in s[0..e1] && LF !in s[e1 + 1..e2] && LF !in s[e2 + 1..e3]
    ensures s[k] != LF
  {
    assert MARKER[0] != LF && forall i :: 0 <= i < |MARKER| ==> MARKER[i] != LF;
    if k < e1 {
      assert s[k] == s[0..e1][k];
    } else if k < e2 {
      assert s[k] == s[e1 + 1..e2][k - e1 - 1];
    } else if k < e3 {
      assert s[k] == s[e2 + 1..e3][k - e2 - 1];
    } else {
      assert s[k] == s[e3 + 1..][k - e3 - 1];
    }
  }

  lemma NoFeedInside(line: seq<byte>)
    requires Plain(line)
    ensures LF !in line
  {
  }

  /** What the line between two positions announces. */
  lemma LineAnnounces(s: seq<byte>, from: nat, e: nat, line: seq<byte>)
    requires from <= e < |s| && (from == 0 || s[from - 1] == LF) && s[e] == LF && line == s[from..e] && LF !in line
    ensures AnnouncedAt(s, e) == Announced(line)
  {
    LineStartIs(s, from, e);
  }

  lemma LineUnannounced(s: seq<byte>, from: nat, e: nat, line: seq<byte>)
    requires from <= e < |s| && (from == 0 || s[from - 1] == LF) && s[e] == LF && line == s[from..e] && LF !in line
    requires Announced(line) == None
    ensures Unannounced(s, e)
  {
    LineAnnounces(s, from, e, line);
  }

  lemma NoFeedUnannounced(s: seq<byte>, k: nat)
    requires k < |s| && s[k] != LF
    ensures Unannounced(s, k)
  {
  }

  lemma OtherLineAt(s: seq<byte>, b: seq<byte>, c: seq<byte>, e1: nat, e2: nat, e3: nat, k: nat)
    requires e1 < e2 < e3 < |s| && s[e1] == s[e2] == s[e3] == LF && s[e3 + 1..] == MARKER && LF !in s[0..e1]
    requires b == s[e1 + 1..e2] && c == s[e2 + 1..e3] && LF !in b && LF !in c
    requires Announced(b) == None && Announced(c) == None && k < |s| && k != e1
    ensures Unannounced(s, k)
  {
    if k == e2 {
      LineUnannounced(s, e1 + 1, e2, b);
    } else if k == e3 {
      LineUnannounced(s, e2 + 1, e3, c);
    } else {
      OnlyThreeFeeds(s, e1, e2, e3, k);
      NoFeedUnannounced(s, k);
    }
  }

  /** Only the three line feeds end lines. */
  lemma OtherLines(s: seq<byte>, b: seq<byte>, c: seq<byte>, e1: nat, e2: nat, e3: nat)
    requires e1 < e2 < e3 < |s| && s[e1] == s[e2] == s[e3] == LF && s[e3 + 1..] == MARKER && LF !in s[0..e1]
    requires b == s[e1 + 1..e2] && c == s[e2 + 1..e3] && LF !in b && LF !in c
    requires Announced(b) == None && Announced(c) == None
    ensures OthersUnannounced(s, |s|, e1)
  {
    forall k: nat | k < |s| && k != e1
      ensures Unannounced(s, k)
    {
      OtherLineAt(s, b, c, e1, e2, e3, k);
    }
  }

  lemma OneAnnouncement(s: seq<byte>, a: seq<byte>, b: seq<byte>, c: seq<byte>, n: nat, e1: nat, e2: nat, e3: nat)
    requires s == Stream(a, b, c) && e1 == |a| && e2 == e1 + 1 + |b| && e3 == e2 + 1 + |c|
    requires Plain(a) && Plain(b) && Plain(c)
    requires Announced(a) == Some(n) && Announced(b) == None && Announced(c) == None
    ensures OnlyAnnouncement(s, |s|, e1, n)
  {
    StreamParts(s, a, b, c, e1, e2, e3);
    NoFeedInside(a);
    NoFeedInside(b);
    NoFeedInside(c);
    LineAnnounces(s, 0, e1, a);
    OtherLines(s, b, c, e1, e2, e3);
  }

  /** No marker starts inside a plain line that does not start like one. */
  lemma NoMarkerInLine(s: seq<byte>, from: nat, e: nat, i: nat, d: nat)
    requires from <= i <= e < |s| && s[e] == LF && Plain(s[from..e]) && d < |MARKER| && d < e - from
    requires s[from..e][d] != MARKER[d]
    ensures !MarkerAt(s, i)
  {
    if i + |MARKER| > e {
      NoMarkerAcross(s, i, e);
    } else if i == from {
      assert s[i..i + |MARKER|][d] == s[from..e][d];
    } else {
      assert s[i..i + |MARKER|][0] == s[from..e][i - from];
    }
  }

  lemma MarkerIsLast(s: seq<byte>, a: seq<byte>, b: seq<byte>, c: seq<byte>, e1: nat, e2: nat, e3: nat)
    requires s == Stream(a, b, c) && e1 == |a| && e2 == e1 + 1 + |b| && e3 == e2 + 1 + |c|
    requires Plain(a) && Plain(b) && Plain(c)
    requires a[7] != MARKER[7] && b[7] != MARKER[7] && c[11] != MARKER[11]
    ensures FirstMarker(s, e3 + 1)
  {
    StreamParts(s, a, b, c, e1, e2, e3);
    assert s[e3 + 1..e3 + 1 + |MARKER|] == MARKER;
    forall i: nat | i < e3 + 1
      ensures !MarkerAt(s, i)
    {
      if i <= e1 {
        NoMarkerInLine(s, 0, e1, i, 7);
      } else if i <= e2 {
        NoMarkerInLine(s, e1 + 1, e2, i, 7);
      } else {
        NoMarkerInLine(s, e2 + 1, e3, i, 11);
      }
    }
  }

  /** What matters about the three lines that the firmware prints in front of the
      marker: the first announces n, and no other line announces anything. */
  ghost predicate Announcing(a: seq<byte>, b: seq<byte>, c: seq<byte>, n: nat) {
    && Plain(a) && Plain(b) && Plain(c)
    && a[7] != MARKER[7] && b[7] != MARKER[7] && c[11] != MARKER[11]
    && Announced(a) == Some(n) && Announced(b) == None && Announced(c) == None
  }

  /** The announcement of n bytes, the start delay and the armed line, each with or
      without carriage returns, are such lines. */
  lemma FirmwareAnnounces(n: nat, delay: nat, eol: seq<byte>)
    requires OnlyCr(eol)
    ensures Announcing(MetaLine(n, eol), DelayLine(delay, eol), ArmedLine(delay, eol), n)
  {
    MetaPlain(n, eol);
    DelayPlain(delay, eol);
    ArmedPlain(delay, eol);
    MetaReadsBack(n, eol);
    NoAnnouncement(DelayLine(delay, eol));
    NoAnnouncement(ArmedLine(delay, eol));
  }

  /** The two deliveries: all at once, and cut at e. */
  lemma Deliveries(m: nat, e: nat)
    requires e < m <= SCAN_READ
    ensures
      var whole, cut := [Poll(m, false, false)], [Poll(e, false, false), Poll(m - e, false, false)];
      LastRead(whole, m, 1, 0, m) && LastRead(cut, m, 2, e, m)
  {
  }

  /** The target, when everything read before the marker's read was s[..before]. */
  ghost function TargetAfter(h: Host, s: seq<byte>, before: nat): int
    requires before <= |s|
  {
    Target(h, FactsAt(h.Ear(), s, before))
  }

  /** The firmware prints those lines and, when it finds a trigger waiting that an
      earlier attempt left behind, the marker right away. When one read brings all
      of it, the marker is found first and the announcement never looked at: the
      capture goes for 256 MiB. Cut behind the announcement, the same stream gives
      the announced target. */
  lemma AnnouncementLost(h: Host, a: seq<byte>, b: seq<byte>, c: seq<byte>, n: nat)
    requires h.bytes.None? && n != 0 && Announcing(a, b, c, n) && |Stream(a, b, c)| <= SCAN_READ
    ensures
      var s, e, p := Stream(a, b, c), |a| + 1, |a| + |b| + |c| + 3;
      && FirstMarker(s, p) && e <= p && p + |MARKER| == |s|
      && var whole, cut := [Poll(|s|, false, false)], [Poll(e, false, false), Poll(|s| - e, false, false)];
      && LastRead(whole, |s|, 1, 0, |s|) && TargetAfter(h, s, 0) == DEFAULT_BYTES
      && LastRead(cut, |s|, 2, e, |s|) && TargetAfter(h, s, e) == n
  {
    var s, e1, e2 := Stream(a, b, c), |a|, |a| + 1 + |b|;
    var e3: nat := e2 + 1 + |c|;
    OneAnnouncement(s, a, b, c, n, e1, e2, e3);
    MarkerIsLast(s, a, b, c, e1, e2, e3);
    Deliveries(|s|, e1 + 1);
    KnownTarget(h, s, |s|, e1, n, 0, FactsAt(h.Ear(), s, 0));
    KnownTarget(h, s, |s|, e1, n, e1 + 1, FactsAt(h.Ear(), s, e1 + 1));
  }
}
