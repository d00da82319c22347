/** The 40-byte AEB header, as the collector packs and unpacks it and as the
    firmware writes and reads it in a buffer. */
module AebMessage {
  import opened Bytes

  const MAGIC: u32 := 0x31424541
  const VERSION: u16 := 1
  const HEADER_LEN := 40

  const START: u16 := 1
  const BURST: u16 := 2
  const HELLO: u16 := 3
  const RAW_BEGIN: u16 := 4
  const RAW_CHUNK: u16 := 5
  const RAW_END: u16 := 6
  const JITTER_CHUNK: u16 := 7

  type nonce16 = n: seq<byte> | |n| == 16 witness seq(16, i => 0)

  datatype Message = Message(
    kind: u16,
    trial: u32,
    seqOrCount: u32,
    intervalUs: u32,
    sampleBytes: u32,
    nonce: nonce16,
    payload: seq<byte>)

  /** Magic, version and type. */
  function Preamble(kind: u16): (h: seq<byte>)
    ensures |h| == 8
  {
    Le(4, MAGIC) + Le(2, VERSION) + Le(2, kind)
  }

  function Counts(m: Message): (h: seq<byte>)
    ensures |h| == 16
  {
    Le(4, m.trial) + Le(4, m.seqOrCount) + Le(4, m.intervalUs) + Le(4, m.sampleBytes)
  }

  function Header(m: Message): (h: seq<byte>)
    ensures |h| == HEADER_LEN
  {
    Preamble(m.kind) + Counts(m) + m.nonce
  }

  /** The collector's make_message. */
  function MakeMessage(m: Message): seq<byte> {
    Header(m) + m.payload
  }

  /** The collector's parse_message. */
  function ParseMessage(data: seq<byte>): Option<Message> {
    if |data| < HEADER_LEN then None
    else if LoadLe32(data[..4]) != MAGIC || LoadLe16(data[4..6]) != VERSION then None
    else Some(Message(LoadLe16(data[6..8]), LoadLe32(data[8..12]), LoadLe32(data[12..16]),
                      LoadLe32(data[16..20]), LoadLe32(data[20..24]), data[24..40], data[40..]))
  }

  lemma PreambleSlices(kind: u16)
    ensures Preamble(kind)[0..4] == Le(4, MAGIC)
    ensures Preamble(kind)[4..6] == Le(2, VERSION)
    ensures Preamble(kind)[6..8] == Le(2, kind)
  {
  }

  lemma CountsSlices(m: Message)
    ensures Counts(m)[0..4] == Le(4, m.trial)
    ensures Counts(m)[4..8] == Le(4, m.seqOrCount)
    ensures Counts(m)[8..12] == Le(4, m.intervalUs)
    ensures Counts(m)[12..16] == Le(4, m.sampleBytes)
  {
  }

  /** The fields of a message sit at the offsets the parser reads. */
  lemma HeaderSlices(m: Message, data: seq<byte>)
    requires |data| >= HEADER_LEN && data[..HEADER_LEN] == Header(m)
    ensures data[..4] == Le(4, MAGIC) && data[4..6] == Le(2, VERSION)
    ensures data[6..8] == Le(2, m.kind) && data[8..12] == Le(4, m.trial)
    ensures data[12..16] == Le(4, m.seqOrCount) && data[16..20] == Le(4, m.intervalUs)
    ensures data[20..24] == Le(4, m.sampleBytes) && data[24..40] == m.nonce
  {
    var h, p, c := Header(m), Preamble(m.kind), Counts(m);
    assert h[0..8] == p && h[8..24] == c && h[24..40] == m.nonce;
    SliceOfSlice(data, 0, HEADER_LEN, 0, 8);
    SliceOfSlice(data, 0, HEADER_LEN, 8, 24);
    SliceOfSlice(data, 0, HEADER_LEN, 24, 40);
    assert data[0..8] == p && data[8..24] == c;
    PreambleSlices(m.kind);
    CountsSlices(m);
    SliceOfSlice(data, 0, 8, 0, 4);
    SliceOfSlice(data, 0, 8, 4, 6);
    SliceOfSlice(data, 0, 8, 6, 8);
    SliceOfSlice(data, 8, 24, 0, 4);
    SliceOfSlice(data, 8, 24, 4, 8);
    SliceOfSlice(data, 8, 24, 8, 12);
    SliceOfSlice(data, 8, 24, 12, 16);
  }

  /** Decoding an encoded message gives it back, payload split at byte 40; and
      the same holds of its truncation to any size that keeps the header. */
  lemma ParseOfMake(m: Message, limit: nat)
    requires limit >= HEADER_LEN
    ensures ParseMessage(MakeMessage(m)) == Some(m)
    ensures ParseMessage(Truncated(MakeMessage(m), limit))
         == Some(m.(payload := Truncated(m.payload, limit - HEADER_LEN)))
  {
    RadixValues();
    LeRoundTrip(4, MAGIC);
    LeRoundTrip(2, VERSION);
    LeRoundTrip(2, m.kind);
    LeRoundTrip(4, m.trial);
    LeRoundTrip(4, m.seqOrCount);
    LeRoundTrip(4, m.intervalUs);
    LeRoundTrip(4, m.sampleBytes);
    HeaderSlices(m, MakeMessage(m));
    assert MakeMessage(m)[40..] == m.payload;
    var cut := Truncated(MakeMessage(m), limit);
    HeaderSlices(m, cut);
    assert cut[40..] == Truncated(m.payload, limit - HEADER_LEN);
  }

  /** Re-encoding whatever the parser accepts reproduces the datagram, so
      the codec is a bijection between messages and accepted datagrams. */
  lemma MakeOfParse(data: seq<byte>)
    requires ParseMessage(data).Some?
    ensures MakeMessage(ParseMessage(data).value) == data
  {
    LeOfFromLe(data[..4]);
    LeOfFromLe(data[4..6]);
    LeOfFromLe(data[6..8]);
    LeOfFromLe(data[8..12]);
    LeOfFromLe(data[12..16]);
    LeOfFromLe(data[16..20]);
    LeOfFromLe(data[20..24]);
    Adjoin(data, 0, 4, 6);
    Adjoin(data, 0, 6, 8);
    Adjoin(data, 8, 12, 16);
    Adjoin(data, 8, 16, 20);
    Adjoin(data, 8, 20, 24);
    Adjoin(data, 0, 8, 24);
    Adjoin(data, 0, 24, 40);
    Adjoin(data, 0, 40, |data|);
  }

  /** Every accepted datagram starts with the letter A. */
  lemma FirstByteIsA(data: seq<byte>)
    requires ParseMessage(data).Some?
    ensures data[0] == 0x41
  {
    LeOfFromLe(data[..4]);
    assert data[0] == Le(4, MAGIC)[0] == MAGIC % 256;
  }

  datatype ParseError = EMsgSize | EInval | EProtoNoSupport

  datatype ParseResult = Parsed(msg: Message) | Rejected(error: ParseError)

  lemma CountsBehind(front: seq<byte>, m: Message, s: seq<byte>)
    requires s == front + Le(4, m.trial) + Le(4, m.seqOrCount) + Le(4, m.intervalUs) + Le(4, m.sampleBytes)
    ensures s == front + Counts(m)
  {
  }

  method PutCounts(header: array<byte>, m: Message)
    requires header.Length >= HEADER_LEN
    modifies header
    ensures header[..24] == old(header[..8]) + Counts(m)
  {
    ghost var front := header[..8];
    PutLe32(header, 8, m.trial);
    PutLe32(header, 12, m.seqOrCount);
    assert header[..16] == front + Le(4, m.trial) + Le(4, m.seqOrCount);
    PutLe32(header, 16, m.intervalUs);
    PutLe32(header, 20, m.sampleBytes);
    CountsBehind(front, m, header[..24]);
  }

  /** The firmware's build_msg. */
  method BuildMsg(header: array<byte>, kind: u16, trial: u32, seqOrCount: u32, intervalUs: u32,
                  sampleBytes: u32, nonce: nonce16)
    requires header.Length >= HEADER_LEN
    modifies header
    ensures header[..HEADER_LEN] == Header(Message(kind, trial, seqOrCount, intervalUs, sampleBytes, nonce, []))
  {
    Zero(header, HEADER_LEN);
    PutLe32(header, 0, MAGIC);
    PutLe16(header, 4, VERSION);
    PutLe16(header, 6, kind);
    assert header[..8] == Preamble(kind);
    PutCounts(header, Message(kind, trial, seqOrCount, intervalUs, sampleBytes, nonce, []));
    CopyTo(header, 24, nonce);
  }

  /** The firmware's parse_msg over the first len bytes of a receive buffer. It
      agrees with the collector's parser on every input. */
  method ParseMsg(buf: array<byte>, len: nat) returns (r: ParseResult)
    requires len <= buf.Length
    ensures r.Parsed? <==> ParseMessage(buf[..len]).Some?
    ensures r.Parsed? ==> r.msg == ParseMessage(buf[..len]).value.(payload := [])
    ensures r == Rejected(EMsgSize) <==> len < HEADER_LEN
    ensures r == Rejected(EInval) <==> len >= HEADER_LEN && buf[..4] != Le(4, MAGIC)
    ensures r == Rejected(EProtoNoSupport)
      <==> len >= HEADER_LEN && buf[..4] == Le(4, MAGIC) && buf[4..6] != Le(2, VERSION)
  {
    if len < HEADER_LEN {
      return Rejected(EMsgSize);
    }
    FieldOf(buf, len, 0, 4);
    FieldOf(buf, len, 4, 6);
    FieldOf(buf, len, 6, 8);
    FieldOf(buf, len, 8, 12);
    FieldOf(buf, len, 12, 16);
    FieldOf(buf, len, 16, 20);
    FieldOf(buf, len, 20, 24);
    FieldOf(buf, len, 24, 40);
    RadixValues();
    LeOfFromLe(buf[..4]);
    LeRoundTrip(4, MAGIC);
    LeOfFromLe(buf[4..6]);
    LeRoundTrip(2, VERSION);
    if LoadLe32(buf[..4]) != MAGIC {
      return Rejected(EInval);
    }
    if LoadLe16(buf[4..6]) != VERSION {
      return Rejected(EProtoNoSupport);
    }
    r := Parsed(Message(LoadLe16(buf[6..8]), LoadLe32(buf[8..12]), LoadLe32(buf[12..16]),
                        LoadLe32(buf[16..20]), LoadLe32(buf[20..24]), buf[24..40], []));
  }
}
