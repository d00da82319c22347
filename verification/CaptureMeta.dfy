/** The text in front of a raw capture's start marker: what the host learns from
    finished lines, and when it triggers the firmware. */
module CaptureMeta {
  import opened Bytes
  import opened PyText

  const LF: byte := 10
  const CR: byte := 13
  const META_PREFIX := "[BENCH_META] raw_dump_bytes,"
  const DEFAULT_BYTES := 268435456

  /** "[BENCH_RAW_ARMED]" in ASCII. */
  const ARMED: seq<byte> :=
    [91, 66, 69, 78, 67, 72, 95, 82, 65, 87, 95, 65, 82, 77, 69, 68, 93]
  const TRIGGER: byte := 71

  // ---- bytes as text ----

  /** The bytes that bytes.strip takes for blanks. */
  predicate IsBlank(b: byte) {
    9 <= b <= 13 || b == 32
  }

  function LStripBytes(s: seq<byte>): (r: seq<byte>)
    ensures |r| <= |s| && r == s[|s| - |r|..]
  {
    if s == [] || !IsBlank(s[0]) then s else LStripBytes(s[1..])
  }

  function RStripBytes(s: seq<byte>): (r: seq<byte>)
    ensures |r| <= |s| && r == s[..|r|]
  {
    if s == [] || !IsBlank(s[|s| - 1]) then s else RStripBytes(s[..|s| - 1])
  }

  function StripBytes(s: seq<byte>): seq<byte> {
    RStripBytes(LStripBytes(s))
  }

  predicate Begins(s: seq<byte>, text: string) {
    |text| <= |s| && forall i :: 0 <= i < |text| ==> s[i] == text[i] as int
  }

  /** rsplit(b",", 1)[1] of a string with a comma. */
  function BehindLastComma(s: seq<byte>): (r: seq<byte>)
    ensures |r| <= |s| && r == s[|s| - |r|..] && ',' as int !in r
    ensures |r| < |s| ==> s[|s| - |r| - 1] == ',' as int
  {
    if s == [] || s[|s| - 1] == ',' as int then []
    else BehindLastComma(s[..|s| - 1]) + [s[|s| - 1]]
  }

  /** int() of bytes. */
  function BytesInt(s: seq<byte>): Option<int> {
    var t := StripBytes(s);
    if AllAscii(t) then AsciiInt(Chars(t)) else None
  }

  // ---- finished lines ----

  /** The byte count that a finished line announces. */
  function Announced(raw: seq<byte>): Option<int> {
    var line := StripBytes(raw);
    if Begins(line, META_PREFIX) then BytesInt(BehindLastComma(line)) else None
  }

  // ---- addresses ----

  predicate IsDigit(b: byte) {
    48 <= b <= 57
  }

  predicate AllDigits(s: seq<byte>) {
    forall i :: 0 <= i < |s| ==> IsDigit(s[i])
  }

  /** s begins with k groups of one to three digits and a dot, and one more digit. */
  predicate Quad(s: seq<byte>, k: nat)
    decreases k
  {
    if k == 0 then s != [] && IsDigit(s[0])
    else exists n: nat | 1 <= n <= 3 && n < |s| :: AllDigits(s[..n]) && s[n] == 46 && Quad(s[n + 1..], k - 1)
  }

  predicate QuadAt(s: seq<byte>, i: nat) {
    i <= |s| && Quad(s[i..], 3)
  }

  /** "IPv4" in ASCII. */
  const IPV4: seq<byte> := [73, 80, 118, 52]

  predicate NamesIpv4(line: seq<byte>) {
    exists i: nat | i < |line| :: IPV4 <= line[i..]
  }

  /** extract_ipv4_from_line finds an address. */
  predicate HasAddress(line: seq<byte>) {
    NamesIpv4(line) && exists i: nat | i < |line| :: QuadAt(line, i)
  }

  /** The command line: the size asked for, and whether there is a target address. */
  datatype Host = Host(bytes: Option<int>, udpBurst: bool, ip: bool)
  {
    /** Nothing but the firmware's text is waited for. */
    predicate Prompt() {
      !udpBurst || ip
    }

    function Ear(): Listener {
      Listener(Facts(None, ip), (f: Facts, raw: seq<byte>) => AfterLine(f, raw))
    }
  }

  /** The announced byte count, and whether an address is known. */
  datatype Facts = Facts(bytes: Option<int>, ip: bool)

  function AfterLine(f: Facts, raw: seq<byte>): Facts {
    Facts(if Announced(raw).Some? then Announced(raw) else f.bytes,
          f.ip || HasAddress(StripBytes(raw)))
  }

  /** What is known at first, and what a finished line adds. */
  datatype Listener = Listener(start: Facts, hear: (Facts, seq<byte>) -> Facts)
  {
    /** An address once known stays known. */
    ghost predicate KeepsAddress() {
      forall f: Facts, raw: seq<byte> :: f.ip ==> hear(f, raw).ip
    }
  }

  lemma EarKeepsAddress(h: Host)
    ensures h.Ear().KeepsAddress()
  {
  }

  lemma NoFeedMore(s: seq<byte>, k: nat, n: nat)
    requires k < n <= |s| && LF !in s[k..n - 1] && s[n - 1] != LF
    ensures LF !in s[k..n]
  {
    forall i | 0 <= i < n - k
      ensures s[k..n][i] != LF
    {
      if i < n - 1 - k {
        assert s[k..n][i] == s[k..n - 1][i];
      }
    }
  }

  /** Where the line that position n belongs to starts. */
  function LineStart(s: seq<byte>, n: nat): (k: nat)
    requires n <= |s|
    ensures k <= n && (k == 0 || s[k - 1] == LF) && LF !in s[k..n]
  {
    if n == 0 || s[n - 1] == LF then n
    else
      var k := LineStart(s, n - 1);
      NoFeedMore(s, k, n);
      k
  }

  /** What the lines finished within the first n bytes say, one after the other. */
  function FactsAt(l: Listener, s: seq<byte>, n: nat): Facts
    requires n <= |s|
  {
    if n == 0 then l.start
    else if s[n - 1] == LF then l.hear(FactsAt(l, s, n - 1), s[LineStart(s, n - 1)..n - 1])
    else FactsAt(l, s, n - 1)
  }

  lemma {:induction false} SameLineStart(s: seq<byte>, from: nat, n: nat)
    requires from <= n <= |s| && LF !in s[from..n]
    ensures LineStart(s, n) == LineStart(s, from)
    decreases n
  {
    if from < n {
      assert s[from..n][n - 1 - from] == s[n - 1];
      assert s[from..n - 1] == s[from..n][..n - 1 - from];
      SameLineStart(s, from, n - 1);
    }
  }

  /** An unfinished line says nothing. */
  lemma {:induction false} SameFacts(l: Listener, s: seq<byte>, from: nat, n: nat)
    requires from <= n <= |s| && LF !in s[from..n]
    ensures FactsAt(l, s, n) == FactsAt(l, s, from)
    decreases n
  {
    if from < n {
      assert s[from..n][n - 1 - from] == s[n - 1];
      assert s[from..n - 1] == s[from..n][..n - 1 - from];
      SameFacts(l, s, from, n - 1);
    }
  }

  lemma FactsStep(l: Listener, s: seq<byte>, n: nat, e: nat, line: seq<byte>, f: Facts, after: Facts)
    requires 0 < n <= |s| && s[n - 1] == LF && e == LineStart(s, n - 1) && f == FactsAt(l, s, n - 1)
    requires line == s[e..n - 1] && after == l.hear(f, line)
    ensures FactsAt(l, s, n) == after
  {
  }

  lemma LineStartIs(s: seq<byte>, e: nat, n: nat)
    requires e <= n <= |s| && (e == 0 || s[e - 1] == LF) && LF !in s[e..n]
    ensures LineStart(s, n) == e
  {
    SameLineStart(s, e, n);
  }

  /** A line that starts at e and ends with a line feed in front of n. */
  lemma LineEnds(l: Listener, s: seq<byte>, e: nat, n: nat, line: seq<byte>, f: Facts, after: Facts)
    requires e < n <= |s| && (e == 0 || s[e - 1] == LF) && LF !in line && s[n - 1] == LF
    requires line == s[e..n - 1] && f == FactsAt(l, s, e) && after == l.hear(f, line)
    ensures FactsAt(l, s, n) == after
  {
    LineStartIs(s, e, n - 1);
    SameFacts(l, s, e, n - 1);
    FactsStep(l, s, n, e, line, f, after);
  }

  // ---- the announcement ----

  /** What a line feed at k ends. */
  function AnnouncedAt(s: seq<byte>, k: nat): Option<int>
    requires k < |s|
  {
    if s[k] == LF then Announced(s[LineStart(s, k)..k]) else None
  }

  predicate Unannounced(s: seq<byte>, k: nat)
    requires k < |s|
  {
    AnnouncedAt(s, k) == None
  }

  ghost predicate OthersUnannounced(s: seq<byte>, n: nat, e: nat) {
    forall k: nat :: k < n && k < |s| && k != e ==> Unannounced(s, k)
  }

  /** The line that ends at e announces a byte count, and no other that ends within
      the first n bytes does. */
  ghost predicate OnlyAnnouncement(s: seq<byte>, n: nat, e: nat, count: int) {
    e < |s| && AnnouncedAt(s, e) == Some(count) && OthersUnannounced(s, n, e)
  }

  lemma BytesStep(h: Host, s: seq<byte>, n: nat, before: Facts, after: Facts)
    requires 0 < n <= |s| && before == FactsAt(h.Ear(), s, n - 1) && after == FactsAt(h.Ear(), s, n)
    ensures after.bytes == if AnnouncedAt(s, n - 1).Some? then AnnouncedAt(s, n - 1) else before.bytes
  {
    var l := h.Ear();
    if s[n - 1] == LF {
      var start := LineStart(s, n - 1);
      var line := s[start..n - 1];
      FactsStep(l, s, n, start, line, before, after);
      assert l.hear(before, line) == AfterLine(before, line);
    }
  }

  /** What each position announces, and what is known after each. */
  function Announcements(s: seq<byte>, n: nat): (a: seq<Option<int>>)
    requires n <= |s|
    ensures |a| == n && forall k :: 0 <= k < n ==> a[k] == AnnouncedAt(s, k)
  {
    seq(n, k requires 0 <= k < n => AnnouncedAt(s, k))
  }

  function KnownBytes(h: Host, s: seq<byte>, n: nat): (b: seq<Option<int>>)
    requires n <= |s|
    ensures |b| == n + 1 && forall k :: 0 <= k <= n ==> b[k] == FactsAt(h.Ear(), s, k).bytes
  {
    seq(n + 1, k requires 0 <= k <= n => FactsAt(h.Ear(), s, k).bytes)
  }

  /** b keeps the last value that a had. */
  ghost predicate Latest(a: seq<Option<int>>, b: seq<Option<int>>) {
    && |b| == |a| + 1 && b[0] == None
    && forall k :: 0 <= k < |a| ==> b[k + 1] == if a[k].Some? then a[k] else b[k]
  }

  lemma LatestStep(h: Host, s: seq<byte>, k: nat, said: Option<int>, before: Option<int>, after: Option<int>)
    requires k < |s| && said == AnnouncedAt(s, k)
    requires before == FactsAt(h.Ear(), s, k).bytes && after == FactsAt(h.Ear(), s, k + 1).bytes
    ensures after == if said.Some? then said else before
  {
    BytesStep(h, s, k + 1, FactsAt(h.Ear(), s, k), FactsAt(h.Ear(), s, k + 1));
  }

  lemma BytesAreLatest(h: Host, s: seq<byte>, n: nat, a: seq<Option<int>>, b: seq<Option<int>>)
    requires n <= |s| && a == Announcements(s, n) && b == KnownBytes(h, s, n)
    ensures Latest(a, b)
  {
    forall k: nat | k < n
      ensures b[k + 1] == if a[k].Some? then a[k] else b[k]
    {
      LatestStep(h, s, k, a[k], b[k], b[k + 1]);
    }
  }

  ghost predicate OnlyAt(a: seq<Option<int>>, e: nat, count: int) {
    forall k :: 0 <= k < |a| ==> a[k] == if k == e then Some(count) else None
  }

  lemma AnnouncedOnlyAt(s: seq<byte>, top: nat, e: nat, count: int, n: nat)
    requires OnlyAnnouncement(s, top, e, count) && n <= top <= |s|
    ensures OnlyAt(Announcements(s, n), e, count)
  {
    forall k: nat | k < n
      ensures Announcements(s, n)[k] == if k == e then Some(count) else None
    {
      if k != e {
        assert Unannounced(s, k);
      }
    }
  }

  lemma {:induction false} LatestIff(a: seq<Option<int>>, b: seq<Option<int>>, e: nat, count: int, k: nat)
    requires Latest(a, b) && OnlyAt(a, e, count) && k <= |a|
    ensures b[k] == if e < k then Some(count) else None
  {
    if k > 0 {
      LatestIff(a, b, e, count, k - 1);
      assert b[k - 1 + 1] == if a[k - 1].Some? then a[k - 1] else b[k - 1];
    }
  }

  /** It is known after n bytes iff its line has ended within them. */
  lemma AnnouncedIff(h: Host, s: seq<byte>, top: nat, e: nat, count: int, n: nat, f: Facts)
    requires OnlyAnnouncement(s, top, e, count) && n <= top <= |s| && f == FactsAt(h.Ear(), s, n)
    ensures f.bytes == if e < n then Some(count) else None
  {
    var a, b := Announcements(s, n), KnownBytes(h, s, n);
    BytesAreLatest(h, s, n, a, b);
    AnnouncedOnlyAt(s, top, e, count, n);
    LatestIff(a, b, e, count, n);
  }

  lemma StripKeeps(s: seq<byte>, blanks: seq<byte>)
    requires s != [] && !IsBlank(s[0]) && !IsBlank(s[|s| - 1])
    requires forall i :: 0 <= i < |blanks| ==> IsBlank(blanks[i])
    ensures StripBytes(s + blanks) == s
    decreases |blanks|
  {
    if blanks == [] {
      assert s + blanks == s;
    } else {
      var t := s + blanks;
      assert t[..|t| - 1] == s + blanks[..|blanks| - 1];
      StripKeeps(s, blanks[..|blanks| - 1]);
    }
  }

  lemma {:induction false} CommaIs(s: seq<byte>, r: seq<byte>)
    requires ',' as int !in r
    ensures BehindLastComma(s + [',' as int] + r) == r
  {
    var t := s + [',' as int] + r;
    if r != [] {
      var n := |r| - 1;
      assert t[..|t| - 1] == s + [',' as int] + r[..n];
      CommaIs(s, r[..n]);
      assert r == r[..n] + [r[n]];
    }
  }

  /** The digits of a count, as bytes. */
  function Digits(n: nat): (d: seq<byte>)
    ensures d != [] && AllAscii(d) && Chars(d) == Decimal(n)
    ensures forall i :: 0 <= i < |d| ==> 48 <= d[i] <= 57
  {
    var s := Decimal(n);
    assert forall i :: 0 <= i < |s| ==> s[i] as int < 128;
    TextBytes(s)
  }

  const PREFIX_BYTES: seq<byte> :=
    [91, 66, 69, 78, 67, 72, 95, 77, 69, 84, 65, 93, 32,
     114, 97, 119, 95, 100, 117, 109, 112, 95, 98, 121, 116, 101, 115]

  /** The line that the firmware prints, without its line feed. */
  function MetaLine(n: nat, eol: seq<byte>): seq<byte> {
    PREFIX_BYTES + [',' as int] + Digits(n) + eol
  }

  lemma PrefixIs(rest: seq<byte>)
    ensures Begins(PREFIX_BYTES + [',' as int] + rest, META_PREFIX)
  {
    var s := PREFIX_BYTES + [',' as int] + rest;
    assert forall i :: 0 <= i < |META_PREFIX| - 1 ==> PREFIX_BYTES[i] == META_PREFIX[i] as int;
  }

  lemma DigitsParse(n: nat)
    ensures BytesInt(Digits(n)) == Some(n)
  {
    var d := Digits(n);
    StripKeeps(d, []);
    assert d + [] == d;
    DecimalParses(n);
  }

  /** The printed line announces its count, with or without a carriage return. */
  lemma MetaReadsBack(n: nat, eol: seq<byte>)
    requires forall i :: 0 <= i < |eol| ==> IsBlank(eol[i])
    ensures Announced(MetaLine(n, eol)) == Some(n)
  {
    var line := PREFIX_BYTES + [',' as int] + Digits(n);
    assert line[0] == 91 && line[|line| - 1] == Digits(n)[|Digits(n)| - 1];
    StripKeeps(line, eol);
    PrefixIs(Digits(n));
    CommaIs(PREFIX_BYTES, Digits(n));
    DigitsParse(n);
  }

  /** A line that starts like a metadata line of another kind, or like none. */
  lemma NoAnnouncement(line: seq<byte>)
    requires |line| > 17 && !IsBlank(line[0]) && line[17] != 100
    ensures Announced(line) == None
  {
    assert LStripBytes(line) == line;
    var t := StripBytes(line);
    assert META_PREFIX[17] as int == 100;
    if |t| > 17 {
      assert t[17] == line[17];
    }
  }

  // ---- addresses in printed lines ----

  /** One group: one to three digits. */
  predicate IsGroup(s: seq<byte>) {
    1 <= |s| <= 3 && AllDigits(s)
  }

  lemma QuadGrows(g: seq<byte>, rest: seq<byte>, k: nat, s: seq<byte>)
    requires IsGroup(g) && Quad(rest, k) && s == g + [46] + rest
    ensures Quad(s, k + 1)
  {
    assert s[..|g|] == g && s[|g|] == 46 && s[|g| + 1..] == rest;
  }

  lemma FirstDigit(d: seq<byte>, rest: seq<byte>)
    requires IsGroup(d)
    ensures Quad(d + rest, 0)
  {
    assert (d + rest)[0] == d[0];
  }

  lemma FourGroups(a: seq<byte>, b: seq<byte>, c: seq<byte>, last: seq<byte>)
    requires IsGroup(a) && IsGroup(b) && IsGroup(c) && Quad(last, 0)
    ensures Quad(a + [46] + (b + [46] + (c + [46] + last)), 3)
  {
    var one := c + [46] + last;
    var two := b + [46] + one;
    QuadGrows(c, last, 0, one);
    QuadGrows(b, one, 1, two);
    QuadGrows(a, two, 2, a + [46] + two);
  }

  lemma StillNames(head: seq<byte>, rest: seq<byte>)
    requires NamesIpv4(head)
    ensures NamesIpv4(head + rest)
  {
    var i: nat :| i < |head| && IPV4 <= head[i..];
    assert (head + rest)[i..] == head[i..] + rest;
  }

  /** A dotted address behind the word IPv4 is found, whatever else the line holds. */
  lemma AddressFound(head: seq<byte>, quad: seq<byte>)
    requires NamesIpv4(head) && quad != [] && Quad(quad, 3)
    ensures HasAddress(head + quad)
  {
    StillNames(head, quad);
    assert (head + quad)[|head|..] == quad;
    assert QuadAt(head + quad, |head|);
  }

  /** And none in a line without a dot, such as the firmware's time-out. */
  lemma NoAddress(line: seq<byte>)
    requires 46 !in line
    ensures !HasAddress(line)
  {
    forall i: nat | i < |line|
      ensures !QuadAt(line, i)
    {
      assert 46 !in line[i..];
    }
  }

  lemma DecimalIsShort(n: nat)
    requires n < 1000
    ensures |Decimal(n)| <= 3
  {
    if n >= 10 {
      assert |Decimal(n)| == |Decimal(n / 10)| + 1;
      if n >= 100 {
        assert |Decimal(n / 10)| == |Decimal(n / 10 / 10)| + 1;
      }
    }
  }

  /** A printed number of at most three digits is a group. */
  lemma DigitsAreGroup(n: nat)
    requires n < 1000
    ensures IsGroup(Digits(n))
  {
    DecimalIsShort(n);
    assert |Digits(n)| == |Chars(Digits(n))|;
  }

  /** So four printed numbers with dots between them, behind the word IPv4, are
      found. */
  lemma DottedFound(head: seq<byte>, a: nat, b: nat, c: nat, d: nat)
    requires NamesIpv4(head) && a < 1000 && b < 1000 && c < 1000 && d < 1000
    ensures HasAddress(head + (Digits(a) + [46] + (Digits(b) + [46] + (Digits(c) + [46] + Digits(d)))))
  {
    DigitsAreGroup(a);
    DigitsAreGroup(b);
    DigitsAreGroup(c);
    DigitsAreGroup(d);
    FirstDigit(Digits(d), []);
    assert Digits(d) + [] == Digits(d);
    FourGroups(Digits(a), Digits(b), Digits(c), Digits(d));
    AddressFound(head, Digits(a) + [46] + (Digits(b) + [46] + (Digits(c) + [46] + Digits(d))));
  }

  lemma QuadStarts(s: seq<byte>, k: nat)
    requires Quad(s, k)
    ensures s != [] && 48 <= s[0] <= 57
  {
    if k > 0 {
      var n: nat :| 1 <= n <= 3 && n < |s| && AllDigits(s[..n]) && s[n] == 46 && Quad(s[n + 1..], k - 1);
      assert s[..n][0] == s[0];
    }
  }

  /** And none in a line without a decimal digit. */
  lemma NoDigitNoAddress(line: seq<byte>)
    requires forall i :: 0 <= i < |line| ==> !(48 <= line[i] <= 57)
    ensures !HasAddress(line)
  {
    forall i: nat | i < |line|
      ensures !QuadAt(line, i)
    {
      assert line[i..][0] == line[i];
      if QuadAt(line, i) {
        QuadStarts(line[i..], 3);
      }
    }
  }

  /** The words the host looks for, as text. */
  lemma Words()
    ensures |IPV4| == 4 && Begins(IPV4, "IPv4")
    ensures |ARMED| == 17 && Begins(ARMED, "[BENCH_RAW_ARMED]")
    ensures |PREFIX_BYTES| == 27 && Begins(PREFIX_BYTES, "[BENCH_META] raw_dump_bytes")
  {
  }

  // ---- the trigger ----

  predicate ArmedAt(s: seq<byte>, i: nat) {
    i + |ARMED| <= |s| && s[i..i + |ARMED|] == ARMED
  }

  /** The armed text has arrived whole with the first n bytes. */
  ghost predicate ArmedWithin(s: seq<byte>, n: nat) {
    exists i: nat :: i + |ARMED| <= n && ArmedAt(s, i)
  }

  /** The scan's memory between reads. */
  datatype Progress = Progress(facts: Facts, armed: bool, tried: bool, sent: bool)
  {
    predicate Due(due: bool) {
      armed && !sent && (!tried || due)
    }

    /** A UDP burst without a target address puts the trigger off. */
    predicate Defers(h: Host, due: bool) {
      Due(due) && h.udpBurst && !facts.ip
    }

    predicate Fires(h: Host, due: bool) {
      Due(due) && !Defers(h, due)
    }
  }

  /** After a read, of which n bytes of s have arrived: the armed text is noticed
      as soon as it is there, and triggers once. */
  ghost predicate Tracks(h: Host, s: seq<byte>, n: nat, g: Progress) {
    && (g.armed <==> ArmedWithin(s, n))
    && (g.sent ==> g.armed && (h.udpBurst ==> g.facts.ip))
    && (h.ip ==> g.facts.ip)
    && (h.Prompt() ==> !g.tried && (g.armed ==> g.sent))
  }

  /** What the end of an iteration does about the trigger. */
  function Triggered(h: Host, g: Progress, due: bool): Progress {
    if g.Defers(h, due) then g.(tried := true)
    else if g.Fires(h, due) then g.(sent := true)
    else g
  }

  /** The trigger goes out once the armed text was seen, unless a UDP burst lacks its
      address; after that it is tried again only when due. */
  lemma TriggersIff(h: Host, g: Progress, due: bool)
    ensures Triggered(h, g, due).sent <==>
      g.sent || (g.armed && (!g.tried || due) && (h.udpBurst ==> g.facts.ip))
    ensures Triggered(h, g, due).tried <==>
      g.tried || (g.armed && !g.sent && h.udpBurst && !g.facts.ip)
    ensures Triggered(h, g, due).armed == g.armed && Triggered(h, g, due).facts == g.facts
  {
  }

  /** When the lines of one more read are in, the trigger keeps track. */
  lemma StaysOnTrack(h: Host, s: seq<byte>, was: nat, n: nat, g: Progress, facts: Facts, armed: bool, due: bool)
    requires Tracks(h, s, was, g) && was <= n && (armed <==> ArmedWithin(s, n))
    requires g.facts.ip ==> facts.ip
    ensures Tracks(h, s, n, Triggered(h, Progress(facts, armed, g.tried, g.sent), due))
  {
    if g.armed {
      var i: nat :| i + |ARMED| <= was && ArmedAt(s, i);
      assert ArmedWithin(s, n);
    }
  }

  /** `armed_marker in scan_buf` */
  predicate HasArmed(s: seq<byte>) {
    exists i: nat | i < |s| :: ArmedAt(s, i)
  }

  /** The armed text holds no line feed. */
  lemma NoArmedAcross(s: seq<byte>, i: nat, j: nat)
    requires i <= j < i + |ARMED| && j < |s| && s[j] == LF
    ensures !ArmedAt(s, i)
  {
    assert forall k :: 0 <= k < |ARMED| ==> ARMED[k] != LF;
    if i + |ARMED| <= |s| {
      assert s[i..i + |ARMED|][j - i] == LF;
    }
  }

  /** `line.startswith(armed_marker)` */
  predicate SaysArmed(raw: seq<byte>) {
    ARMED <= StripBytes(raw)
  }

  lemma ArmedSlice(s: seq<byte>, a: nat, b: nat)
    requires a <= b <= |s| && ARMED <= s[a..b]
    ensures ArmedAt(s, a)
  {
    assert s[a..a + |ARMED|] == s[a..b][..|ARMED|];
  }

  lemma StripIsSlice(s: seq<byte>) returns (a: nat, b: nat)
    ensures a <= b <= |s| && StripBytes(s) == s[a..b]
  {
    var t := LStripBytes(s);
    a := |s| - |t|;
    b := a + |RStripBytes(t)|;
  }

  lemma SaysArmedHas(raw: seq<byte>)
    requires SaysArmed(raw)
    ensures HasArmed(raw)
  {
    var a, b := StripIsSlice(raw);
    ArmedSlice(raw, a, b);
  }

  /** The count that the capture collects. */
  function Target(h: Host, f: Facts): int {
    if h.bytes.Some? then h.bytes.value
    else if f.bytes.Some? && f.bytes.value != 0 then f.bytes.value
    else DEFAULT_BYTES
  }

  /** A count on the command line goes before an announced one; without either, or
      with 0 announced, it is 256 MiB. */
  lemma TargetIs(h: Host, f: Facts)
    ensures h.bytes.Some? ==> Target(h, f) == h.bytes.value
    ensures h.bytes.None? && f.bytes.Some? && f.bytes.value != 0 ==> Target(h, f) == f.bytes.value
    ensures h.bytes.None? && (f.bytes.None? || f.bytes.value == 0) ==> Target(h, f) == 268435456
  {
  }

  /** The target that follows from one announcement. */
  lemma KnownTarget(h: Host, s: seq<byte>, top: nat, e: nat, count: int, n: nat, f: Facts)
    requires OnlyAnnouncement(s, top, e, count) && n <= top <= |s| && f == FactsAt(h.Ear(), s, n)
    requires h.bytes.None? && count != 0
    ensures Target(h, f) == if e < n then count else DEFAULT_BYTES
  {
    AnnouncedIff(h, s, top, e, count, n, f);
  }

  /** The firmware announces its count before it says that it is armed. */
  ghost predicate AnnouncesFirst(s: seq<byte>, e: nat) {
    forall i: nat :: ArmedAt(s, i) ==> e < i
  }

  lemma ArmedLater(s: seq<byte>, e: nat, n: nat)
    requires AnnouncesFirst(s, e) && ArmedWithin(s, n)
    ensures e < n
  {
    var i: nat :| i + |ARMED| <= n && ArmedAt(s, i);
  }
}
