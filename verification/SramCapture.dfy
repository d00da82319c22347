/** The SRAM start-up experiment: the firmware prints a memory region as lines
    of hexadecimal text, and the host rebuilds the region from a serial log
    that may hold noise, abandoned captures and lost lines. */
module SramCapture {
  import opened Bytes
  import opened HexText
  import opened SramText

  const REGION_BYTES := 4096
  const DATA_BYTES_PER_LINE := 64

  // ------------------------------------------------------------ lines

  /** The first n data lines of a region. */
  function DataLines(region: seq<byte>, n: nat): (l: seq<Line>)
    requires n * DATA_BYTES_PER_LINE <= |region|
    ensures |l| == n
    ensures forall k :: 0 <= k < n ==> l[k] == DataLine(region, k)
  {
    if n == 0 then [] else DataLines(region, n - 1) + [DataLine(region, n - 1)]
  }

  function DataLine(region: seq<byte>, k: nat): Line
    requires (k + 1) * DATA_BYTES_PER_LINE <= |region|
  {
    Data(Some(64 * k), Some(Hex(region[64 * k..64 * k + 64])))
  }

  /** The log lines of one complete capture. */
  function Printed(region: seq<byte>, address: nat): seq<Line>
    requires |region| == REGION_BYTES
  {
    [Begin(Some(REGION_BYTES), Some(address))] + DataLines(region, |region| / 64) + [End]
  }

  /** The inner loop of print_capture: one line's worth of bytes as text, in a
      character buffer that keeps a terminating zero behind them. */
  method HexInto(captured: array<byte>, offset: nat, count: nat, hex: array<char>)
    requires offset + count <= captured.Length && 2 * count < hex.Length
    modifies hex
    ensures hex[..2 * count] == Hex(captured[offset..offset + count])
    ensures hex[2 * count] == '\0'
  {
    var i := 0;
    while i < count
      invariant 0 <= i <= count
      invariant hex[..2 * i] == Hex(captured[offset..offset + i])
      invariant captured[..] == old(captured[..])
    {
      var value := captured[offset + i];
      ghost var was := hex[..2 * i];
      hex[2 * i] := HexDigit(value / 16);
      hex[2 * i + 1] := HexDigit(value % 16);
      assert hex[..2 * i] == was;
      assert hex[..2 * i + 2] == was + HexOfByte(value);
      ghost var next := captured[offset..offset + i + 1];
      assert next[..|next| - 1] == captured[offset..offset + i] && next[|next| - 1] == value;
      i := i + 1;
    }
    hex[2 * count] := '\0';
  }

  /** The text of the first n data lines. */
  function DataTexts(region: seq<byte>, n: nat): (l: seq<string>)
    requires n * DATA_BYTES_PER_LINE <= |region|
    ensures |l| == n
    ensures forall k :: 0 <= k < n ==> l[k] == DataText(64 * k, Hex(region[64 * k..64 * k + 64]))
  {
    if n == 0 then []
    else DataTexts(region, n - 1) + [DataText(64 * (n - 1), Hex(region[64 * (n - 1)..64 * (n - 1) + 64]))]
  }

  /** The text of one complete capture, line by line. */
  function PrintedText(region: seq<byte>, address: nat): (l: seq<string>)
    requires |region| == REGION_BYTES
    ensures |l| == 66
  {
    [BeginText(REGION_BYTES, address)] + DataTexts(region, |region| / 64) + [END_TAG]
  }

  /** One data line, through the character buffer. */
  method PrintDataLine(captured: array<byte>, offset: nat, count: nat, hex: array<char>) returns (line: string)
    requires offset + count <= captured.Length && 2 * count < hex.Length
    modifies hex
    ensures line == DataText(offset, Hex(captured[..][offset..offset + count]))
  {
    HexInto(captured, offset, count, hex);
    assert captured[..][offset..offset + count] == captured[offset..offset + count];
    line := DataText(offset, hex[..2 * count]);
  }

  /** The lines printed after k data lines. */
  ghost predicate Sofar(region: seq<byte>, address: nat, k: nat, lines: seq<string>) {
    && k * DATA_BYTES_PER_LINE <= |region|
    && lines == [BeginText(REGION_BYTES, address)] + DataTexts(region, k)
  }

  lemma NextDataText(region: seq<byte>, address: nat, k: nat, line: string, lines: seq<string>)
    requires (k + 1) * DATA_BYTES_PER_LINE <= |region| && line == DataText(64 * k, Hex(region[64 * k..64 * k + 64]))
    requires Sofar(region, address, k, lines)
    ensures Sofar(region, address, k + 1, lines + [line])
  {
    Associate([BeginText(REGION_BYTES, address)], DataTexts(region, k), [line]);
  }

  lemma FirstText(region: seq<byte>, address: nat)
    ensures Sofar(region, address, 0, [BeginText(REGION_BYTES, address)])
  {
  }

  lemma AllPrinted(region: seq<byte>, address: nat, k: nat, lines: seq<string>)
    requires |region| == REGION_BYTES && k == |region| / 64 && Sofar(region, address, k, lines)
    ensures lines + [END_TAG] == PrintedText(region, address)
  {
  }

  method PrintCapture(captured: array<byte>, address: nat) returns (lines: seq<string>)
    requires captured.Length == REGION_BYTES
    ensures lines == PrintedText(captured[..], address)
  {
    ghost var region: seq<byte> := captured[..];
    var hex := new char[2 * DATA_BYTES_PER_LINE + 1];
    lines := [BeginText(REGION_BYTES, address)];
    FirstText(region, address);
    var offset := 0;
    ghost var k := 0;
    while offset < REGION_BYTES
      invariant 0 <= k <= 64 && offset == 64 * k && captured[..] == region
      invariant Sofar(region, address, k, lines)
      decreases REGION_BYTES - offset
    {
      var count := REGION_BYTES - offset;
      if count > DATA_BYTES_PER_LINE {
        count := DATA_BYTES_PER_LINE;
      }
      var line := PrintDataLine(captured, offset, count, hex);
      NextDataText(region, address, k, line, lines);
      lines := lines + [line];
      offset, k := offset + DATA_BYTES_PER_LINE, k + 1;
    }
    AllPrinted(region, address, k, lines);
    lines := lines + [END_TAG];
  }

  function Apply<A, B>(f: A -> B, s: seq<A>): (r: seq<B>)
    ensures |r| == |s| && forall k :: 0 <= k < |r| ==> r[k] == f(s[k])
  {
    seq(|s|, k requires 0 <= k < |s| => f(s[k]))
  }

  lemma ApplyConcat<A, B>(f: A -> B, a: seq<A>, b: seq<A>)
    ensures Apply(f, a + b) == Apply(f, a) + Apply(f, b)
  {
  }

  /** What the reader makes of the lines it receives. */
  function LinesOf(raws: seq<seq<byte>>): (l: seq<Line>)
    ensures |l| == |raws|
  {
    Apply(ReadLine, raws)
  }

  lemma LineAt(raws: seq<seq<byte>>, k: nat)
    requires k < |raws|
    ensures LinesOf(raws)[k] == ReadLine(raws[k])
  {
  }

  /** Received lines that are these texts, each with its line end. */
  ghost predicate PrintsAs(raws: seq<seq<byte>>, texts: seq<string>) {
    |raws| == |texts| && forall k :: 0 <= k < |raws| ==> LineOf(raws[k], texts[k])
  }

  lemma DataLineReadsBack(raw: seq<byte>, region: seq<byte>, k: nat)
    requires (k + 1) * DATA_BYTES_PER_LINE <= |region|
    requires LineOf(raw, DataText(64 * k, Hex(region[64 * k..64 * k + 64])))
    ensures ReadLine(raw) == DataLine(region, k)
  {
    DataReadsBack(raw, 64 * k, region[64 * k..64 * k + 64]);
  }

  lemma PrintedAt(region: seq<byte>, address: nat, k: nat)
    requires |region| == REGION_BYTES && k < 64
    ensures PrintedText(region, address)[k + 1] == DataText(64 * k, Hex(region[64 * k..64 * k + 64]))
    ensures Printed(region, address)[k + 1] == DataLine(region, k)
  {
    assert PrintedText(region, address)[k + 1] == DataTexts(region, |region| / 64)[k];
    assert Printed(region, address)[k + 1] == DataLines(region, |region| / 64)[k];
  }

  lemma PrintedLineReadsBack(raws: seq<seq<byte>>, region: seq<byte>, address: nat, k: nat)
    requires |region| == REGION_BYTES && PrintsAs(raws, PrintedText(region, address)) && k < 66
    ensures LinesOf(raws)[k] == Printed(region, address)[k]
  {
    LineAt(raws, k);
    assert LineOf(raws[k], PrintedText(region, address)[k]);
    if k == 0 {
      BeginReadsBack(raws[0], REGION_BYTES, address);
    } else if k == 65 {
      EndReadsBack(raws[65]);
    } else {
      PrintedAt(region, address, k - 1);
      DataLineReadsBack(raws[k], region, k - 1);
    }
  }

  /** The printed text of a capture is read as its lines. */
  lemma PrintedReadsBack(raws: seq<seq<byte>>, region: seq<byte>, address: nat)
    requires |region| == REGION_BYTES && PrintsAs(raws, PrintedText(region, address))
    ensures LinesOf(raws) == Printed(region, address)
  {
    forall k: nat | k < 66
      ensures LinesOf(raws)[k] == Printed(region, address)[k]
    {
      PrintedLineReadsBack(raws, region, address, k);
    }
  }

  // ------------------------------------------------------------ the reader

  datatype Failure = WrongSize | Malformed | BadOffset | Incomplete | TimedOut

  /** The reader's variables. */
  datatype Reader = Reader(captured: seq<byte>, received: set<nat>, address: Option<int>, began: bool, ended: bool) {
    predicate Valid() {
      && |captured| == REGION_BYTES
      && (forall i :: i in received ==> i < REGION_BYTES)
      && (began ==> address.Some?) && (ended ==> began)
    }
  }

  datatype Outcome = Reading(reader: Reader) | Returned(bytes: seq<byte>, address: int) | Raised(failure: Failure)

  function Zeros(n: nat): (s: seq<byte>)
    ensures |s| == n
  {
    seq(n, _ => 0)
  }

  const INITIAL := Reader(Zeros(REGION_BYTES), {}, None, false, false)

  function Patched(s: seq<byte>, offset: nat, data: seq<byte>): (r: seq<byte>)
    requires offset + |data| <= |s|
    ensures |r| == |s|
    ensures forall i :: 0 <= i < |s| ==> r[i] == if offset <= i < offset + |data| then data[i - offset] else s[i]
  {
    s[..offset] + data + s[offset + |data|..]
  }

  /** range(lo, hi) as a set. */
  function Range(lo: nat, hi: nat): (r: set<nat>)
    requires lo <= hi
    ensures forall i: nat :: i in r <==> lo <= i < hi
    ensures |r| == hi - lo
  {
    if lo == hi then {} else Range(lo, hi - 1) + {hi - 1}
  }

  /** What a data line does once its fields have parsed. */
  function Store(st: Reader, offset: int, data: seq<byte>): Outcome
    requires st.Valid()
  {
    if offset < 0 || offset + |data| > REGION_BYTES then Raised(BadOffset)
    else
      Reading(st.(captured := Patched(st.captured, offset, data),
                  received := st.received + Range(offset, offset + |data|)))
  }

  /** One line. */
  function Step(st: Reader, line: Line): (o: Outcome)
    requires st.Valid()
    ensures o.Reading? ==> o.reader.Valid()
  {
    match line
    case Begin(size, address) =>
      if size == None then Raised(Malformed)
      else if size != Some(REGION_BYTES) then Raised(WrongSize)
      else if address == None then Raised(Malformed)
      else Reading(st.(received := {}, address := address, began := true, ended := false))
    case Data(offset, hex) =>
      if !st.began then Reading(st)
      else if offset == None || hex == None || FromHex(hex.value) == None then Raised(Malformed)
      else Store(st, offset.value, FromHex(hex.value).value)
    case End => Reading(st.(ended := st.began || st.ended))
    case Ready =>
      if !st.ended then Reading(st)
      else if |st.received| != REGION_BYTES then Raised(Incomplete)
      else Returned(st.captured, st.address.value)
    case Noise => Reading(st)
  }

  /** The reader after a log: it stops at the first line that returns or raises. */
  function After(log: seq<Line>): (o: Outcome)
    ensures o.Reading? ==> o.reader.Valid()
  {
    if log == [] then Reading(INITIAL)
    else
      var o := After(log[..|log| - 1]);
      if o.Reading? then Step(o.reader, log[|log| - 1]) else o
  }

  lemma {:induction false} StopsForGood(log: seq<Line>, k: nat)
    requires k <= |log| && !After(log[..k]).Reading?
    ensures After(log) == After(log[..k])
  {
    if k < |log| {
      var shorter := log[..|log| - 1];
      assert shorter[..k] == log[..k];
      StopsForGood(shorter, k);
    } else {
      assert log[..k] == log;
    }
  }

  // ---- what a log says, read backwards from its end ----

  predicate Began(log: seq<Line>) {
    log != [] && (log[|log| - 1].Begin? || Began(log[..|log| - 1]))
  }

  predicate Ended(log: seq<Line>) {
    log != [] &&
    var last, rest := log[|log| - 1], log[..|log| - 1];
    if last.Begin? then false else Ended(rest) || (last.End? && Began(rest))
  }

  /** The address of the most recent BEGIN. */
  function AddressOf(log: seq<Line>): Option<int> {
    if log == [] then None
    else if log[|log| - 1].Begin? then log[|log| - 1].address
    else AddressOf(log[..|log| - 1])
  }

  predicate Covers(line: Line, i: nat) {
    && line.Data? && line.offset.Some? && line.hex.Some? && FromHex(line.hex.value).Some?
    && 0 <= line.offset.value <= i < line.offset.value + |FromHex(line.hex.value).value|
  }

  function CarriedBy(line: Line, i: nat): byte
    requires Covers(line, i)
  {
    FromHex(line.hex.value).value[i - line.offset.value]
  }

  /** The byte last written at i since the most recent BEGIN, if any. */
  function Written(log: seq<Line>, i: nat): Option<byte> {
    if log == [] || log[|log| - 1].Begin? then None
    else
      var last, rest := log[|log| - 1], log[..|log| - 1];
      if Covers(last, i) && Began(rest) then Some(CarriedBy(last, i))
      else Written(rest, i)
  }

  /** The reader's variables say what the log says. */
  ghost predicate Tells(st: Reader, log: seq<Line>) {
    && st.Valid()
    && st.began == Began(log) && st.ended == Ended(log) && st.address == AddressOf(log)
    && forall i: nat :: i < REGION_BYTES ==> Agrees(st, log, i)
  }

  predicate Agrees(st: Reader, log: seq<Line>, i: nat)
    requires st.Valid() && i < REGION_BYTES
  {
    && (i in st.received <==> Written(log, i).Some?)
    && (i in st.received ==> Written(log, i) == Some(st.captured[i]))
  }

  lemma StepTells(st: Reader, log: seq<Line>, line: Line)
    requires Tells(st, log) && Step(st, line).Reading?
    ensures Tells(Step(st, line).reader, log + [line])
  {
    var all, next := log + [line], Step(st, line).reader;
    assert all[..|all| - 1] == log && all[|all| - 1] == line;
    forall i: nat | i < REGION_BYTES
      ensures Agrees(next, all, i)
    {
      assert Agrees(st, log, i);
    }
  }

  lemma {:induction false} AfterTells(log: seq<Line>)
    requires After(log).Reading?
    ensures Tells(After(log).reader, log)
  {
    if log != [] {
      var rest := log[..|log| - 1];
      AfterTells(rest);
      assert log == rest + [log[|log| - 1]];
      StepTells(After(rest).reader, rest, log[|log| - 1]);
    }
  }

  /** The line of a BEGIN or of data that does not parse. */
  predicate Unparsed(line: Line) {
    || (line.Begin? && (line.size.None? || (line.size == Some(4096) && line.address.None?)))
    || (line.Data? && (line.offset.None? || line.hex.None? || FromHex(line.hex.value).None?))
  }

  /** Which line raises what: data counts only behind a BEGIN, and READY raises only
      behind an END. */
  lemma RaisesIff(st: Reader, line: Line)
    requires st.Valid()
    ensures Step(st, line) == Raised(Malformed) <==> Unparsed(line) && (line.Data? ==> st.began)
    ensures Step(st, line) == Raised(WrongSize) <==> line.Begin? && line.size.Some? && line.size.value != 4096
    ensures Step(st, line) == Raised(BadOffset) <==>
      && line.Data? && st.began && !Unparsed(line)
      && !(0 <= line.offset.value && line.offset.value + |FromHex(line.hex.value).value| <= 4096)
    ensures Step(st, line) == Raised(Incomplete) <==> line.Ready? && st.ended && |st.received| != 4096
    ensures Step(st, line) != Raised(TimedOut)
    ensures Step(st, line).Returned? <==> line.Ready? && st.ended && |st.received| == 4096
  {
  }

  /** A data line is stored where it says, over whatever an earlier one has stored
      there; BEGIN forgets what was received. */
  lemma LaterDataWins(log: seq<Line>, line: Line, i: nat)
    requires After(log).Reading? && After(log).reader.began && After(log + [line]).Reading? && i < REGION_BYTES
    ensures line.Data? && line.offset.Some? && line.hex.Some? && FromHex(line.hex.value).Some? ==>
      var data, at := FromHex(line.hex.value).value, line.offset.value;
      var st, now := After(log).reader, After(log + [line]).reader;
      && (at <= i < at + |data| ==> i in now.received && now.captured[i] == data[i - at])
      && (!(at <= i < at + |data|) ==>
            (i in now.received <==> i in st.received) && now.captured[i] == st.captured[i])
    ensures line.Begin? ==> After(log + [line]).reader.received == {}
  {
    assert (log + [line])[..|log|] == log;
  }

  // ------------------------------------------------------------ when it returns

  /** A set of offsets below n has n members exactly when it has them all. */
  lemma FullIff(received: set<nat>, n: nat)
    requires forall i :: i in received ==> i < n
    ensures |received| == n <==> forall i: nat :: i < n ==> i in received
  {
    var all := Range(0, n);
    assert received <= all;
    if |received| == n && received != all {
      SubsetSmaller(received, all);
    }
    assert (forall i: nat :: i < n ==> i in received) ==> received == all;
    assert received == all ==> forall i: nat :: i < n ==> i in all;
  }

  lemma SubsetSmaller(a: set<nat>, b: set<nat>)
    requires a < b
    ensures |a| < |b|
  {
    assert b == a + (b - a);
    assert |b| == |a| + |b - a|;
  }

  predicate Complete(log: seq<Line>) {
    forall i: nat :: i < REGION_BYTES ==> Written(log, i).Some?
  }

  /** The reader returns what the log says was written since its last BEGIN. */
  ghost predicate ReturnsWritten(o: Outcome, log: seq<Line>) {
    && o.Returned? && |o.bytes| == REGION_BYTES && Some(o.address) == AddressOf(log)
    && forall i: nat :: i < REGION_BYTES ==> Written(log, i) == Some(o.bytes[i])
  }

  lemma VerdictOf(st: Reader, log: seq<Line>)
    requires Tells(st, log)
    ensures
      var o := Step(st, Ready);
      && (!Ended(log) ==> o == Reading(st))
      && (Ended(log) && !Complete(log) ==> o == Raised(Incomplete))
      && (Ended(log) && Complete(log) ==> ReturnsWritten(o, log))
  {
    FullIff(st.received, REGION_BYTES);
    if forall i: nat :: i < REGION_BYTES ==> i in st.received {
      forall i: nat | i < REGION_BYTES
        ensures Written(log, i) == Some(st.captured[i])
      {
        assert Agrees(st, log, i);
      }
    } else {
      var i: nat :| i < REGION_BYTES && i !in st.received;
      assert Agrees(st, log, i);
    }
  }

  /** The reader's verdict at READY, for every log.  It passes over a READY that
      no END precedes; otherwise it returns if and only if every byte has been
      written since the most recent BEGIN, and then every returned byte is the
      one last written since that BEGIN. */
  lemma ReadyVerdict(log: seq<Line>)
    requires After(log).Reading?
    ensures
      var o := After(log + [Ready]);
      && (!Ended(log) ==> o == After(log))
      && (Ended(log) && !Complete(log) ==> o == Raised(Incomplete))
      && (Ended(log) && Complete(log) ==> ReturnsWritten(o, log))
  {
    assert (log + [Ready])[..|log|] == log;
    AfterTells(log);
    VerdictOf(After(log).reader, log);
  }

  /** Line k is a READY that finds a finished and complete capture. */
  predicate ReturnsAt(log: seq<Line>, k: nat) {
    && k < |log| && log[k].Ready?
    && After(log[..k]).Reading? && Ended(log[..k]) && Complete(log[..k])
  }

  lemma ReturnsThere(log: seq<Line>, k: nat)
    requires ReturnsAt(log, k)
    ensures ReturnsWritten(After(log), log[..k])
  {
    ReadyVerdict(log[..k]);
    assert log[..k + 1] == log[..k] + [Ready];
    StopsForGood(log, k + 1);
  }

  /** The reader returns if and only if the log has such a line. */
  lemma {:induction false} ReturnedIff(log: seq<Line>)
    ensures After(log).Returned? <==> exists k: nat :: ReturnsAt(log, k)
  {
    if k: nat :| ReturnsAt(log, k) {
      ReturnsThere(log, k);
    } else if log != [] {
      var rest, n := log[..|log| - 1], |log| - 1;
      ReturnedIff(rest);
      assert forall k: nat :: k < n ==> log[..k] == rest[..k];
      forall k: nat
        ensures !ReturnsAt(rest, k)
      {
        assert !ReturnsAt(log, k);
      }
      assert !ReturnsAt(log, n);
      if After(rest).Reading? {
        AfterTells(rest);
        VerdictOf(After(rest).reader, rest);
      }
    }
  }

  /** read_capture: what it makes of the lines that arrive before its deadline. */
  function Verdict(log: seq<Line>): Outcome {
    if After(log).Reading? then Raised(TimedOut) else After(log)
  }

  /** captured[offset:offset + len(data)] = data, inside the buffer. */
  method Overwrite(captured: array<byte>, offset: nat, data: seq<byte>)
    requires offset + |data| <= captured.Length
    modifies captured
    ensures captured[..] == Patched(old(captured[..]), offset, data)
  {
    forall i | 0 <= i < |data| {
      captured[offset + i] := data[i];
    }
  }

  /** A data line, in place; the buffer keeps what other lines wrote. */
  method TakeData(captured: array<byte>, line: Line, received: set<nat>, ghost st: Reader)
    returns (stop: Option<Failure>, received': set<nat>)
    requires line.Data? && st.Valid() && st.began && st.captured == captured[..] && st.received == received
    modifies captured
    ensures stop.Some? ==> Step(st, line) == Raised(stop.value)
    ensures stop.None? ==> Step(st, line) == Reading(st.(captured := captured[..], received := received'))
  {
    stop, received' := None, received;
    var data: Option<seq<byte>> := if line.hex.Some? then FromHex(line.hex.value) else None;
    if line.offset == None || data == None {
      return Some(Malformed), received;
    }
    var offset := line.offset.value;
    if offset < 0 || offset + |data.value| > REGION_BYTES {
      return Some(BadOffset), received;
    }
    Overwrite(captured, offset, data.value);
    received' := received + Range(offset, offset + |data.value|);
  }

  /** The body of read_capture's loop; a new BEGIN does not clear the buffer. */
  method TakeLine(captured: array<byte>, line: Line, received: set<nat>, address: Option<int>, began: bool, ended: bool)
    returns (stop: Option<Outcome>, received': set<nat>, address': Option<int>, began': bool, ended': bool)
    requires Reader(captured[..], received, address, began, ended).Valid()
    modifies captured
    ensures
      var o := Step(Reader(old(captured[..]), received, address, began, ended), line);
      && (stop.None? ==> o == Reading(Reader(captured[..], received', address', began', ended')))
      && (stop.Some? ==> o == stop.value && !o.Reading?)
  {
    stop, received', address', began', ended' := None, received, address, began, ended;
    if line.Begin? {
      if line.size == None {
        stop := Some(Raised(Malformed));
      } else if line.size != Some(REGION_BYTES) {
        stop := Some(Raised(WrongSize));
      } else if line.address == None {
        stop := Some(Raised(Malformed));
      } else {
        address', received', began', ended' := line.address, {}, true, false;
      }
    } else if began && line.Data? {
      var failure;
      failure, received' := TakeData(captured, line, received, Reader(captured[..], received, address, began, ended));
      if failure.Some? {
        stop := Some(Raised(failure.value));
      }
    } else if began && line.End? {
      ended' := true;
    } else if line.Ready? && ended {
      if |received| != REGION_BYTES || address == None {
        stop := Some(Raised(Incomplete));
      } else {
        stop := Some(Returned(captured[..], address.value));
      }
    }
  }

  /** read_capture as the host runs it. */
  method ReadCapture(raws: seq<seq<byte>>) returns (o: Outcome)
    ensures o == Verdict(LinesOf(raws))
  {
    var log := LinesOf(raws);
    var captured := new byte[REGION_BYTES](_ => 0);
    var received: set<nat>, address: Option<int>, began, ended := {}, None, false, false;
    assert captured[..] == Zeros(REGION_BYTES);
    var k := 0;
    while k < |log|
      invariant 0 <= k <= |log|
      invariant After(log[..k]) == Reading(Reader(captured[..], received, address, began, ended))
    {
      StopsIf(log, k, Reader(captured[..], received, address, began, ended));
      var stop;
      stop, received, address, began, ended := TakeLine(captured, log[k], received, address, began, ended);
      if stop.Some? {
        return stop.value;
      }
      k := k + 1;
    }
    assert log[..k] == log;
    o := Raised(TimedOut);
  }

  lemma StopsIf(log: seq<Line>, k: nat, st: Reader)
    requires k < |log| && After(log[..k]) == Reading(st)
    ensures After(log[..k + 1]) == Step(st, log[k])
    ensures !Step(st, log[k]).Reading? ==> Verdict(log) == Step(st, log[k])
  {
    assert log[..k + 1][..k] == log[..k];
    if !Step(st, log[k]).Reading? {
      StopsForGood(log, k + 1);
    }
  }

  // ------------------------------------------------------------ resynchronisation

  predicate WellFormed(line: Line) {
    match line
    case Begin(size, address) => size == Some(REGION_BYTES) && address.Some?
    case Data(offset, hex) =>
      && offset.Some? && hex.Some? && FromHex(hex.value).Some?
      && 0 <= offset.value && offset.value + |FromHex(hex.value).value| <= REGION_BYTES
    case _ => true
  }

  /** A log of noise and abandoned captures: its BEGIN and data lines are ones
      the firmware can print, and no READY finds a finished capture. */
  predicate Abandoned(log: seq<Line>) {
    log == [] ||
    var last, rest := log[|log| - 1], log[..|log| - 1];
    Abandoned(rest) && WellFormed(last) && !(last.Ready? && Ended(rest))
  }

  lemma {:induction false} AbandonedKeepsReading(log: seq<Line>)
    requires Abandoned(log)
    ensures After(log).Reading?
  {
    if log != [] {
      AbandonedKeepsReading(log[..|log| - 1]);
      AfterTells(log[..|log| - 1]);
    }
  }

  /** A log without its noise. */
  function Signal(log: seq<Line>): seq<Line> {
    if log == [] then []
    else Signal(log[..|log| - 1]) + (if log[|log| - 1].Noise? then [] else [log[|log| - 1]])
  }

  /** A well-formed BEGIN followed by data lines that fit the region. */
  predicate Dumping(lines: seq<Line>) {
    && lines != [] && lines[0].Begin? && WellFormed(lines[0])
    && forall k :: 1 <= k < |lines| ==> lines[k].Data? && WellFormed(lines[k])
  }

  /** The byte at i in the last of the given data lines that covers it. */
  function LastOf(lines: seq<Line>, i: nat): Option<byte> {
    if lines == [] then None
    else
      var last := lines[|lines| - 1];
      if Covers(last, i) then Some(CarriedBy(last, i))
      else LastOf(lines[..|lines| - 1], i)
  }

  lemma SignalOfSnoc(log: seq<Line>, line: Line)
    ensures Signal(log + [line]) == Signal(log) + (if line.Noise? then [] else [line])
  {
    assert (log + [line])[..|log|] == log;
  }

  /** Splits a log into all but its last line and that line, behind `before`. */
  lemma Unsnoc(before: seq<Line>, log: seq<Line>)
    requires log != []
    ensures (before + log)[..|before + log| - 1] == before + log[..|log| - 1]
    ensures (before + log)[|before + log| - 1] == log[|log| - 1]
  {
  }

  /** Signal's last line is the log's last line, or the log's last line is noise. */
  lemma DumpingShorter(log: seq<Line>)
    requires Dumping(Signal(log))
    ensures log != []
    ensures
      var rest, last := log[..|log| - 1], log[|log| - 1];
      || (last.Noise? && Signal(rest) == Signal(log))
      || (Signal(rest) == [] && Signal(log) == [last] && last.Begin?)
      || (Signal(rest) != [] && last.Data? && WellFormed(last) && Signal(log) == Signal(rest) + [last]
          && Dumping(Signal(rest)) && Signal(log)[1..] == Signal(rest)[1..] + [last])
  {
    var rest, last, s := log[..|log| - 1], log[|log| - 1], Signal(log);
    if !last.Noise? {
      var r := Signal(rest);
      assert s == r + [last] && s[|s| - 1] == last;
      assert forall k :: 0 <= k < |r| ==> r[k] == s[k];
    }
  }

  /** While a capture is being printed, the reader is behind its BEGIN. */
  lemma {:induction false} DumpTells(before: seq<Line>, log: seq<Line>)
    requires Abandoned(before) && Dumping(Signal(log))
    ensures Abandoned(before + log) && Began(before + log) && !Ended(before + log)
    ensures AddressOf(before + log) == Signal(log)[0].address
    decreases |log|
  {
    DumpingShorter(log);
    Unsnoc(before, log);
    var rest := log[..|log| - 1];
    if Signal(rest) == [] {
      QuietPrefix(before, rest);
    } else {
      DumpTells(before, rest);
    }
  }

  lemma WrittenSnoc(log: seq<Line>, rest: seq<Line>, last: Line, i: nat)
    requires log == rest + [last] && Began(rest) && !last.Begin?
    ensures Written(log, i) == if Covers(last, i) then Some(CarriedBy(last, i)) else Written(rest, i)
  {
    assert log[..|log| - 1] == rest && log[|log| - 1] == last;
  }

  lemma LastOfSnoc(all: seq<Line>, lines: seq<Line>, last: Line, i: nat)
    requires all == lines + [last]
    ensures LastOf(all, i) == if Covers(last, i) then Some(CarriedBy(last, i)) else LastOf(lines, i)
  {
    assert all[..|all| - 1] == lines && all[|all| - 1] == last;
  }

  /** Nothing has been written at its BEGIN. */
  lemma DumpBegins(all: seq<Line>, rest: seq<Line>, last: Line, i: nat)
    requires all == rest + [last] && last.Begin?
    ensures Written(all, i) == None
  {
    assert all[|all| - 1] == last;
  }

  /** What has been written then is what its own data lines say: whatever came
      before is forgotten. */
  lemma {:induction false} DumpWrites(before: seq<Line>, log: seq<Line>, i: nat)
    requires Abandoned(before) && Dumping(Signal(log))
    ensures Written(before + log, i) == LastOf(Signal(log)[1..], i)
    decreases |log|
  {
    DumpingShorter(log);
    Unsnoc(before, log);
    var rest, last := log[..|log| - 1], log[|log| - 1];
    assert before + log == before + rest + [last];
    if Signal(rest) == [] {
      DumpBegins(before + log, before + rest, last, i);
    } else {
      DumpWrites(before, rest, i);
      DumpTells(before, rest);
      WrittenSnoc(before + log, before + rest, last, i);
      LastOfSnoc(Signal(rest)[1..] + [last], Signal(rest)[1..], last, i);
    }
  }

  lemma {:induction false} QuietPrefix(before: seq<Line>, log: seq<Line>)
    requires Abandoned(before) && Signal(log) == []
    ensures Abandoned(before + log)
    decreases |log|
  {
    if log == [] {
      assert before + log == before;
    } else {
      var rest, last := log[..|log| - 1], log[|log| - 1];
      var all := before + log;
      assert log == rest + [last] && all[..|all| - 1] == before + rest && all[|all| - 1] == last;
      SignalOfSnoc(rest, last);
      QuietPrefix(before, rest);
    }
  }

  /** A capture closed by END, noise in between, ready for the verdict. */
  lemma ClosedVerdict(before: seq<Line>, dump: seq<Line>, gap: seq<Line>)
    requires Abandoned(before) && Dumping(Signal(dump)) && Signal(gap) == []
    ensures
      var o := After(before + dump + [End] + gap + [Ready]);
      var lines := Signal(dump)[1..];
      && ((exists i: nat :: i < REGION_BYTES && LastOf(lines, i).None?) ==> o == Raised(Incomplete))
      && ((forall i: nat :: i < REGION_BYTES ==> LastOf(lines, i).Some?) ==>
            && o.Returned? && |o.bytes| == REGION_BYTES && Some(o.address) == Signal(dump)[0].address
            && forall i: nat :: i < REGION_BYTES ==> LastOf(lines, i) == Some(o.bytes[i]))
  {
    DumpTells(before, dump);
    var log, closed := before + dump, before + dump + [End];
    assert closed[..|closed| - 1] == log && closed[|closed| - 1] == End;
    assert Abandoned(closed) && Ended(closed) && AddressOf(closed) == AddressOf(log);
    forall i: nat
      ensures Written(closed, i) == LastOf(Signal(dump)[1..], i)
    {
      DumpWrites(before, dump, i);
    }
    GapTells(closed, gap);
    AbandonedKeepsReading(closed + gap);
    ReadyVerdict(closed + gap);
  }

  lemma {:induction false} GapTells(log: seq<Line>, gap: seq<Line>)
    requires Abandoned(log) && Signal(gap) == []
    ensures Abandoned(log + gap) && Ended(log + gap) == Ended(log)
    ensures AddressOf(log + gap) == AddressOf(log)
    ensures forall i: nat :: Written(log + gap, i) == Written(log, i)
    decreases |gap|
  {
    if gap == [] {
      assert log + gap == log;
    } else {
      var rest, last := gap[..|gap| - 1], gap[|gap| - 1];
      var all := log + gap;
      assert gap == rest + [last] && all[..|all| - 1] == log + rest && all[|all| - 1] == last;
      SignalOfSnoc(rest, last);
      GapTells(log, rest);
    }
  }

  // ---- the printer's lines ----

  lemma DataLineCovers(region: seq<byte>, k: nat, i: nat)
    requires (k + 1) * DATA_BYTES_PER_LINE <= |region|
    ensures Covers(DataLine(region, k), i) <==> 64 * k <= i < 64 * k + 64
    ensures FromHex(DataLine(region, k).hex.value) == Some(region[64 * k..64 * k + 64])
    ensures 64 * k <= i < 64 * k + 64 ==>
      FromHex(DataLine(region, k).hex.value).value[i - 64 * k] == region[i]
  {
    HexRoundTrip(region[64 * k..64 * k + 64]);
  }

  lemma PrintedIsDump(region: seq<byte>, address: nat)
    requires |region| == REGION_BYTES
    ensures Dumping([Begin(Some(REGION_BYTES), Some(address))] + DataLines(region, |region| / 64))
  {
    var lines := [Begin(Some(REGION_BYTES), Some(address))] + DataLines(region, |region| / 64);
    forall k | 1 <= k < |lines|
      ensures lines[k].Data? && WellFormed(lines[k])
    {
      assert lines[k] == DataLine(region, k - 1);
      DataLineCovers(region, k - 1, 0);
    }
  }

  lemma {:induction false} LastOfDataLines(region: seq<byte>, n: nat, i: nat)
    requires n * DATA_BYTES_PER_LINE <= |region|
    ensures LastOf(DataLines(region, n), i) == if i < 64 * n then Some(region[i]) else None
  {
    if n > 0 {
      var lines, k := DataLines(region, n), n - 1;
      assert lines[..k] == DataLines(region, k);
      LastOfDataLines(region, k, i);
      DataLineCovers(region, k, i);
    }
  }

  /** The round trip with resynchronisation: whatever noise and abandoned
      captures come first, and whatever noise the lines are mixed with, a
      capture printed in full is read back exactly. */
  lemma CaptureRoundTrip(before: seq<Line>, dump: seq<Line>, gap: seq<Line>, after: seq<Line>,
                         region: seq<byte>, address: nat)
    requires Abandoned(before) && |region| == REGION_BYTES && Signal(gap) == []
    requires Signal(dump) + [End] == Printed(region, address)
    ensures After(before + dump + [End] + gap + [Ready] + after) == Returned(region, address)
  {
    PrintedIsDump(region, address);
    assert Signal(dump) == (Signal(dump) + [End])[..65]
        == [Begin(Some(REGION_BYTES), Some(address))] + DataLines(region, |region| / 64);
    ClosedVerdict(before, dump, gap);
    var log := before + dump + [End] + gap + [Ready];
    assert Signal(dump)[1..] == DataLines(region, |region| / 64);
    forall i: nat | i < REGION_BYTES
      ensures LastOf(Signal(dump)[1..], i) == Some(region[i])
    {
      LastOfDataLines(region, 64, i);
    }
    assert After(log).bytes == region;
    assert (log + after)[..|log|] == log;
    StopsForGood(log + after, |log|);
  }

  /** Data lines of a region from which line k may be missing. */
  predicate WithoutLine(lines: seq<Line>, region: seq<byte>, k: nat)
    requires |region| == REGION_BYTES && k < 64
  {
    forall j :: 0 <= j < |lines| ==> exists m: nat :: m < 64 && m != k && lines[j] == DataLine(region, m)
  }

  lemma {:induction false} LostLineUnwritten(lines: seq<Line>, region: seq<byte>, k: nat)
    requires |region| == REGION_BYTES && k < 64 && WithoutLine(lines, region, k)
    ensures LastOf(lines, 64 * k) == None
  {
    if lines != [] {
      var m: nat :| m < 64 && m != k && lines[|lines| - 1] == DataLine(region, m);
      DataLineCovers(region, m, 64 * k);
      var rest := lines[..|lines| - 1];
      assert forall j :: 0 <= j < |rest| ==> rest[j] == lines[j];
      LostLineUnwritten(rest, region, k);
    }
  }

  /** A capture that lost any of its data lines raises, even when the other
      lines are repeated or reordered and even when an earlier capture had
      delivered the missing bytes. */
  lemma LostLineRaises(before: seq<Line>, dump: seq<Line>, gap: seq<Line>, after: seq<Line>,
                       region: seq<byte>, k: nat)
    requires Abandoned(before) && |region| == REGION_BYTES && k < 64 && Signal(gap) == []
    requires Dumping(Signal(dump)) && WithoutLine(Signal(dump)[1..], region, k)
    ensures After(before + dump + [End] + gap + [Ready] + after) == Raised(Incomplete)
  {
    ClosedVerdict(before, dump, gap);
    LostLineUnwritten(Signal(dump)[1..], region, k);
    var log := before + dump + [End] + gap + [Ready];
    assert 64 * k < REGION_BYTES;
    assert (log + after)[..|log|] == log;
    StopsForGood(log + after, |log|);
  }

  // ------------------------------------------------------------ the same, in text

  /** The received lines that the reader does not pass over as noise. */
  function Quiet(raws: seq<seq<byte>>): seq<seq<byte>> {
    if raws == [] then []
    else
      var last := raws[|raws| - 1];
      Quiet(raws[..|raws| - 1]) + (if ReadLine(last).Noise? then [] else [last])
  }

  lemma LinesConcat(a: seq<seq<byte>>, b: seq<seq<byte>>)
    ensures LinesOf(a + b) == LinesOf(a) + LinesOf(b)
  {
    ApplyConcat(ReadLine, a, b);
  }

  lemma LinesOfOne(raw: seq<byte>)
    ensures LinesOf([raw]) == [ReadLine(raw)]
  {
    LineAt([raw], 0);
  }

  lemma {:induction false} QuietIsSignal(raws: seq<seq<byte>>)
    ensures LinesOf(Quiet(raws)) == Signal(LinesOf(raws))
  {
    if raws != [] {
      var rest, last := raws[..|raws| - 1], raws[|raws| - 1];
      var line := ReadLine(last);
      assert raws == rest + [last];
      QuietIsSignal(rest);
      LinesConcat(rest, [last]);
      LinesOfOne(last);
      SignalOfSnoc(LinesOf(rest), line);
      LinesConcat(Quiet(rest), [last]);
      if line.Noise? {
        assert Quiet(rest) + [] == Quiet(rest);
      }
    }
  }

  /** The round trip in text: after any abandoned captures and noise, the bytes
      of the printed lines, with either line end and noise in between, followed
      by READY, are read back as the region and address that were printed. */
  lemma TextRoundTrip(before: seq<seq<byte>>, dump: seq<seq<byte>>, end: seq<byte>, gap: seq<seq<byte>>,
                      ready: seq<byte>, after: seq<seq<byte>>, region: seq<byte>, address: nat)
    requires Abandoned(LinesOf(before)) && |region| == REGION_BYTES && Quiet(gap) == []
    requires PrintsAs(Quiet(dump) + [end], PrintedText(region, address)) && LineOf(ready, READY_TEXT)
    ensures Verdict(LinesOf(before + dump + [end] + gap + [ready] + after)) == Returned(region, address)
  {
    PrintedReadsBack(Quiet(dump) + [end], region, address);
    LinesConcat(Quiet(dump), [end]);
    QuietIsSignal(dump);
    QuietIsSignal(gap);
    ReadyReadsBack(ready);
    assert (Quiet(dump) + [end])[65] == end && PrintedText(region, address)[65] == END_TAG;
    EndReadsBack(end);
    LinesOfOne(end);
    LinesOfOne(ready);
    LinesConcat(before, dump);
    LinesConcat(before + dump, [end]);
    LinesConcat(before + dump + [end], gap);
    LinesConcat(before + dump + [end] + gap, [ready]);
    LinesConcat(before + dump + [end] + gap + [ready], after);
    CaptureRoundTrip(LinesOf(before), LinesOf(dump), LinesOf(gap), LinesOf(after), region, address);
  }
}
