/** The firmware's send_raw_stream: what one upload puts on the wire, and the
    loops over the device buffers that produce it. */
module AebUpload {
  import opened Bytes
  import opened AebMessage

  /** Both buffers and one more chunk fit the device's 32-bit address space, so
      none of the uint32_t sums in send_raw_stream wraps. */
  ghost predicate Fits(chunk: nat, rawLen: nat, deltaCount: nat) {
    1 <= chunk && rawLen + chunk < U32_LIMIT && deltaCount + chunk < U32_LIMIT
  }

  function RawChunks(chunk: nat, rawLen: nat): nat
    requires chunk >= 1
  {
    (rawLen + chunk - 1) / chunk
  }

  /** Jitter values per chunk: the payload size over four, but at least one. */
  function PerChunk(chunk: nat): (k: nat)
    ensures k >= 1
  {
    if chunk / 4 == 0 then 1 else chunk / 4
  }

  /** Rounding up: piece i exists iff it starts inside the buffer. */
  lemma PieceStartsInside(size: nat, len: nat, i: nat)
    requires size >= 1
    ensures i < (len + size - 1) / size <==> i * size < len
  {
    var n := (len + size - 1) / size;
    assert n * size <= len + size - 1 < n * size + size;
    if i < n {
      assert (i + 1) * size <= n * size;
    } else {
      assert i * size >= n * size;
    }
  }

  /** Piece i of a buffer cut into pieces of the given size. */
  function Piece<T>(s: seq<T>, size: nat, i: nat): (p: seq<T>)
    requires size >= 1
    ensures |p| == if i * size < |s| then Min(size, |s| - i * size) else 0
  {
    if i * size < |s| then s[i * size..i * size + Min(size, |s| - i * size)] else []
  }

  lemma PieceAppends<T>(s: seq<T>, size: nat, i: nat, off: nat)
    requires size >= 1 && off == i * size
    ensures s[..Min(off, |s|)] + Piece(s, size, i) == s[..Min(off + size, |s|)]
  {
  }

  /** The pieces of a buffer, in order, are the buffer. */
  lemma {:induction false} PiecesCover<T>(s: seq<T>, size: nat, parts: seq<seq<T>>, off: nat)
    requires size >= 1 && off == |parts| * size
    requires forall i: nat :: i < |parts| ==> parts[i] == Piece(s, size, i)
    ensures Flatten(parts) == s[..Min(off, |s|)]
  {
    if parts != [] {
      var i := |parts| - 1;
      assert (i + 1) * size == i * size + size;
      PiecesCover(s, size, parts[..i], off - size);
      PieceAppends(s, size, i, off - size);
    }
  }

  function Begin(start: Message, chunk: nat, rawLen: nat): Message
    requires Fits(chunk, rawLen, 0)
  {
    PiecesAtMost(chunk, rawLen);
    Message(RAW_BEGIN, start.trial, RawChunks(chunk, rawLen), start.intervalUs, rawLen, start.nonce, [])
  }

  function End(start: Message, chunk: nat, rawLen: nat): Message
    requires Fits(chunk, rawLen, 0)
  {
    Begin(start, chunk, rawLen).(kind := RAW_END)
  }

  function RawPart(start: Message, chunk: nat, raw: seq<byte>, i: u32): Message
    requires Fits(chunk, |raw|, 0)
  {
    var p := Piece(raw, chunk, i);
    Message(RAW_CHUNK, start.trial, i, start.intervalUs, |p|, start.nonce, p)
  }

  function JitterPart(start: Message, chunk: nat, deltas: seq<u32>, j: u32): Message
    requires Fits(chunk, 0, |deltas|)
  {
    var p := PackLe32(Piece(deltas, PerChunk(chunk), j));
    Message(JITTER_CHUNK, start.trial, j, start.intervalUs, |p| % U32_LIMIT, start.nonce, p)
  }

  function JitterChunks(chunk: nat, deltaCount: nat): nat {
    (deltaCount + PerChunk(chunk) - 1) / PerChunk(chunk)
  }

  lemma PiecesAtMost(size: nat, len: nat)
    requires size >= 1
    ensures (len + size - 1) / size <= len
  {
    PieceStartsInside(size, len, len);
    assert len * size >= len;
  }

  lemma ChunkCounts(chunk: nat, rawLen: nat, deltaCount: nat)
    requires Fits(chunk, rawLen, deltaCount)
    ensures RawChunks(chunk, rawLen) <= rawLen
    ensures JitterChunks(chunk, deltaCount) <= deltaCount
  {
    PiecesAtMost(chunk, rawLen);
    PiecesAtMost(PerChunk(chunk), deltaCount);
  }

  function RawParts(start: Message, chunk: nat, raw: seq<byte>): (r: seq<Message>)
    requires Fits(chunk, |raw|, 0)
    ensures |r| == RawChunks(chunk, |raw|)
  {
    ChunkCounts(chunk, |raw|, 0);
    seq(RawChunks(chunk, |raw|), i requires 0 <= i < RawChunks(chunk, |raw|) => RawPart(start, chunk, raw, i))
  }

  function JitterParts(start: Message, chunk: nat, deltas: seq<u32>): (r: seq<Message>)
    requires Fits(chunk, 0, |deltas|)
    ensures |r| == JitterChunks(chunk, |deltas|)
  {
    ChunkCounts(chunk, 0, |deltas|);
    seq(JitterChunks(chunk, |deltas|),
        j requires 0 <= j < JitterChunks(chunk, |deltas|) => JitterPart(start, chunk, deltas, j))
  }

  /** The messages of one upload, in the order they are sent. */
  function Upload(start: Message, chunk: nat, raw: seq<byte>, deltas: seq<u32>): seq<Message>
    requires Fits(chunk, |raw|, |deltas|)
  {
    [Begin(start, chunk, |raw|)] + RawParts(start, chunk, raw) + JitterParts(start, chunk, deltas)
    + [End(start, chunk, |raw|)]
  }

  function Wire(msgs: seq<Message>): (w: seq<seq<byte>>)
    ensures |w| == |msgs|
  {
    seq(|msgs|, i requires 0 <= i < |msgs| => MakeMessage(msgs[i]))
  }

  /** The byte string that the device hashes as its response. */
  function ResponseInput(raw: seq<byte>, deltas: seq<u32>): seq<byte> {
    raw + PackLe32(deltas)
  }

  /** A connected UDP socket: it takes a number of datagrams, then every send fails. */
  class Socket {
    var sent: seq<seq<byte>>
    var room: nat

    constructor (room: nat)
      ensures sent == [] && this.room == room
    {
      sent := [];
      this.room := room;
    }

    method Send(data: seq<byte>) returns (ok: bool)
      modifies this
      ensures ok <==> old(room) > 0
      ensures ok ==> sent == old(sent) + [data] && room == old(room) - 1
      ensures !ok ==> sent == old(sent) && room == old(room)
    {
      ok := room > 0;
      if ok {
        sent := sent + [data];
        room := room - 1;
      }
    }
  }

  /** send_binary_msg: header and payload assembled in tx_buf, then one send. */
  method SendBinaryMsg(sock: Socket, tx: array<byte>, m: Message) returns (ok: bool)
    requires tx.Length >= HEADER_LEN
    modifies sock, tx
    ensures ok <==> HEADER_LEN + |m.payload| <= tx.Length && old(sock.room) > 0
    ensures ok ==> sock.sent == old(sock.sent) + [MakeMessage(m)] && sock.room == old(sock.room) - 1
    ensures !ok ==> sock.sent == old(sock.sent) && sock.room == old(sock.room)
  {
    if HEADER_LEN + |m.payload| > tx.Length {
      return false;
    }
    BuildMsg(tx, m.kind, m.trial, m.seqOrCount, m.intervalUs, m.sampleBytes, m.nonce);
    CopyTo(tx, HEADER_LEN, m.payload);
    assert tx[..HEADER_LEN + |m.payload|] == MakeMessage(m);
    ok := sock.Send(tx[..HEADER_LEN + |m.payload|]);
  }

  /** sys_put_le32 of each value of one jitter chunk into jitter_payload. */
  method FillJitterPayload(buf: array<byte>, deltas: array<u32>, off: nat, values: nat)
    requires off + values <= deltas.Length && 4 * values <= buf.Length
    modifies buf
    ensures buf[..4 * values] == PackLe32(deltas[off..off + values])
  {
    for i := 0 to values
      invariant buf[..4 * i] == PackLe32(deltas[off..off + i])
    {
      PutLe32(buf, 4 * i, deltas[off + i]);
      assert deltas[off..off + (i + 1)] == deltas[off..off + i] + [deltas[off + i]];
      PackConcat(deltas[off..off + i], [deltas[off + i]]);
      assert PackLe32([deltas[off + i]]) == Le(4, deltas[off + i]) + PackLe32([]);
    }
  }

  lemma WireConcat(a: seq<Message>, b: seq<Message>)
    ensures Wire(a + b) == Wire(a) + Wire(b)
  {
  }

  /** From (sent0, room0) to (sent1, room1) the socket took the datagrams in
      order, up to the first send that failed. */
  ghost predicate Took(sent0: seq<seq<byte>>, room0: nat, sent1: seq<seq<byte>>, room1: nat,
                       wire: seq<seq<byte>>, ok: bool)
  {
    var n := Min(room0, |wire|);
    sent1 == sent0 + wire[..n] && room1 == room0 - n && (ok <==> |wire| <= room0)
  }

  lemma TookThen(s0: seq<seq<byte>>, r0: nat, s1: seq<seq<byte>>, r1: nat, s2: seq<seq<byte>>, r2: nat,
                 first: seq<seq<byte>>, ok1: bool, second: seq<seq<byte>>, ok2: bool)
    requires Took(s0, r0, s1, r1, first, ok1)
    requires if ok1 then Took(s1, r1, s2, r2, second, ok2) else s2 == s1 && r2 == r1 && !ok2 && second != []
    ensures Took(s0, r0, s2, r2, first + second, ok2)
  {
    var n := Min(r0, |first + second|);
    if ok1 {
      assert (first + second)[..n] == first + second[..n - |first|];
    } else {
      assert (first + second)[..n] == first[..n];
    }
  }

  lemma RawPartIs(start: Message, chunk: nat, raw: seq<byte>, i: nat, off: nat, count: nat)
    requires Fits(chunk, |raw|, 0) && i < RawChunks(chunk, |raw|) && off == i * chunk
    requires count == if |raw| - off > chunk then chunk else |raw| - off
    ensures i < U32_LIMIT && 0 <= off < |raw| && 0 <= count <= chunk
    ensures RawPart(start, chunk, raw, i)
         == Message(RAW_CHUNK, start.trial, i, start.intervalUs, count, start.nonce, raw[off..off + count])
  {
    PieceStartsInside(chunk, |raw|, i);
    ChunkCounts(chunk, |raw|, 0);
  }

  lemma TookOneMore(s0: seq<seq<byte>>, s1: seq<seq<byte>>, wire: seq<seq<byte>>, i: nat)
    requires i < |wire| && s1 == s0 + wire[..i]
    ensures s1 + [wire[i]] == s0 + wire[..i + 1]
  {
  }

  method SendRawParts(sock: Socket, tx: array<byte>, chunk: nat, start: Message, raw: array<byte>, rawLen: nat)
    returns (ok: bool)
    requires rawLen <= raw.Length && Fits(chunk, rawLen, 0)
    requires tx.Length == HEADER_LEN + chunk && raw != tx
    modifies sock, tx
    ensures Took(old(sock.sent), old(sock.room), sock.sent, sock.room, Wire(RawParts(start, chunk, raw[..rawLen])), ok)
  {
    ghost var r := raw[..rawLen];
    ghost var wire := Wire(RawParts(start, chunk, r));
    var rawChunks := (rawLen + chunk - 1) / chunk;
    ok := true;
    for i := 0 to rawChunks
      invariant i <= old(sock.room) && sock.room == old(sock.room) - i
      invariant sock.sent == old(sock.sent) + wire[..i] && raw[..rawLen] == r
    {
      var off := i * chunk;
      PieceStartsInside(chunk, rawLen, i);
      var count := if rawLen - off > chunk then chunk else rawLen - off;
      RawPartIs(start, chunk, r, i, off, count);
      assert raw[off..off + count] == r[off..off + count];
      TookOneMore(old(sock.sent), sock.sent, wire, i);
      ok := SendBinaryMsg(sock, tx, Message(RAW_CHUNK, start.trial, i, start.intervalUs, count, start.nonce,
                                            raw[off..off + count]));
      if !ok {
        return;
      }
    }
  }

  /** The writes of the first jitter chunk leave jitter_payload, which has room
      for one payload of the chunk size. */
  predicate Overruns(chunk: nat, deltaCount: nat) {
    chunk < 4 && deltaCount > 0
  }

  /** All jitter chunks fit the payload buffer exactly when payloads have four
      bytes or more, or there is no delta: when one overruns, the first does. */
  lemma JitterFitsIff(chunk: nat, deltas: seq<u32>)
    requires chunk >= 1
    ensures (forall j: nat :: |PackLe32(Piece(deltas, PerChunk(chunk), j))| <= chunk) <==> chunk >= 4 || deltas == []
    ensures Overruns(chunk, |deltas|) <==> |PackLe32(Piece(deltas, PerChunk(chunk), 0))| > chunk
  {
    var per := PerChunk(chunk);
    if chunk >= 4 || deltas == [] {
      forall j: nat
        ensures |PackLe32(Piece(deltas, per, j))| <= chunk
      {
        assert |Piece(deltas, per, j)| <= Min(per, |deltas|);
      }
    } else {
      assert per == 1 && 0 * per == 0;
      assert |Piece(deltas, per, 0)| == 1;
    }
  }

  /** The smallest case: payloads of one byte and one delta. */
  lemma OneDeltaOverruns(delta: u32)
    ensures |PackLe32(Piece([delta], PerChunk(1), 0))| == 4 > 1 && Overruns(1, 1)
  {
    assert 0 * PerChunk(1) == 0;
  }

  /** How an upload ends. Overran: the next step of the program would write past
      jitter_payload. */
  datatype UploadEnd = Sent | SendFailed | Overran

  lemma PieceIs<T>(s: seq<T>, size: nat, i: nat, off: nat, count: nat)
    requires size >= 1 && off == i * size < |s| && count == Min(size, |s| - off)
    ensures Piece(s, size, i) == s[off..off + count]
  {
  }

  lemma PayloadLength(chunk: nat, values: nat)
    requires 4 <= chunk < U32_LIMIT && values <= PerChunk(chunk)
    ensures 4 * values <= chunk && 4 * values % U32_LIMIT == 4 * values
  {
  }

  lemma JitterPartOf(start: Message, chunk: nat, deltas: seq<u32>, index: u32, piece: seq<u32>)
    requires 4 <= chunk && Fits(chunk, 0, |deltas|) && |piece| <= PerChunk(chunk)
    requires piece == Piece(deltas, PerChunk(chunk), index)
    ensures 4 * |piece| <= chunk
    ensures JitterPart(start, chunk, deltas, index)
      == Message(JITTER_CHUNK, start.trial, index, start.intervalUs, 4 * |piece|, start.nonce, PackLe32(piece))
  {
    PayloadLength(chunk, |piece|);
  }

  lemma JitterPartIs(start: Message, chunk: nat, deltas: seq<u32>, index: u32, size: nat, off: nat, values: nat)
    requires chunk >= 4 && Fits(chunk, 0, |deltas|) && size == PerChunk(chunk)
    requires off == index * size < |deltas| && values == Min(size, |deltas| - off)
    ensures 4 * values <= chunk
    ensures JitterPart(start, chunk, deltas, index)
      == Message(JITTER_CHUNK, start.trial, index, start.intervalUs, 4 * values, start.nonce,
                 PackLe32(deltas[off..off + values]))
  {
    PieceIs(deltas, size, index, off, values);
    JitterPartOf(start, chunk, deltas, index, deltas[off..off + values]);
  }

  /** One jitter chunk: packed into jitter_payload and sent, unless packing it
      would leave the buffer. */
  method SendJitterChunk(sock: Socket, tx: array<byte>, jitterPayload: array<byte>, start: Message,
                         deltas: array<u32>, off: nat, values: nat, index: u32)
    returns (end: UploadEnd)
    requires off + values <= deltas.Length && values < 0x4000_0000
    requires tx.Length == HEADER_LEN + jitterPayload.Length && tx != jitterPayload
    modifies sock, tx, jitterPayload
    ensures end == Overran <==> 4 * values > jitterPayload.Length
    ensures end == Sent <==> end != Overran && old(sock.room) > 0
    ensures end == Sent ==>
      && sock.room == old(sock.room) - 1
      && sock.sent == old(sock.sent) + [MakeMessage(Message(JITTER_CHUNK, start.trial, index, start.intervalUs,
                                                            4 * values, start.nonce,
                                                            PackLe32(deltas[off..off + values])))]
    ensures end != Sent ==> sock.room == old(sock.room) && sock.sent == old(sock.sent)
  {
    if 4 * values > jitterPayload.Length {
      return Overran;
    }
    FillJitterPayload(jitterPayload, deltas, off, values);
    var ok := SendBinaryMsg(sock, tx, Message(JITTER_CHUNK, start.trial, index, start.intervalUs, 4 * values,
                                              start.nonce, jitterPayload[..4 * values]));
    end := if ok then Sent else SendFailed;
  }

  /** Which piece comes at an offset, and how long it is. */
  lemma NextPiece(chunk: nat, count: nat, index: nat, off: nat)
    requires chunk >= 1 && off == index * PerChunk(chunk) && count + chunk < U32_LIMIT
    ensures index < JitterChunks(chunk, count) <==> off < count
    ensures off < count ==> index < U32_LIMIT && Min(PerChunk(chunk), count - off) < 0x4000_0000
    ensures off < count ==> (4 * Min(PerChunk(chunk), count - off) > chunk <==> chunk < 4)
    ensures off + PerChunk(chunk) == (index + 1) * PerChunk(chunk)
  {
    PieceStartsInside(PerChunk(chunk), count, index);
    PiecesAtMost(PerChunk(chunk), count);
  }

  /** One turn of the jitter loop. */
  method SendNextJitter(sock: Socket, tx: array<byte>, jitterPayload: array<byte>, chunk: nat, start: Message,
                        deltas: array<u32>, deltaCount: nat, perChunk: nat, off: nat, index: nat)
    returns (end: UploadEnd)
    requires deltaCount <= deltas.Length && Fits(chunk, 0, deltaCount) && perChunk == PerChunk(chunk)
    requires tx.Length == HEADER_LEN + chunk && jitterPayload.Length == chunk && tx != jitterPayload
    requires off == index * perChunk < deltaCount
    modifies sock, tx, jitterPayload
    ensures index < JitterChunks(chunk, deltaCount)
    ensures end == Overran <==> chunk < 4
    ensures end == Sent <==> end != Overran && old(sock.room) > 0
    ensures end == Sent ==>
      && sock.room == old(sock.room) - 1
      && sock.sent == old(sock.sent) + [Wire(JitterParts(start, chunk, deltas[..deltaCount]))[index]]
    ensures end != Sent ==> sock.room == old(sock.room) && sock.sent == old(sock.sent)
  {
    ghost var d := deltas[..deltaCount];
    NextPiece(chunk, deltaCount, index, off);
    var values := if deltaCount - off > perChunk then perChunk else deltaCount - off;
    assert deltas[off..off + values] == d[off..off + values];
    if chunk >= 4 {
      JitterPartIs(start, chunk, d, index, perChunk, off, values);
    }
    end := SendJitterChunk(sock, tx, jitterPayload, start, deltas, off, values, index);
  }

  method SendJitterParts(sock: Socket, tx: array<byte>, chunk: nat, start: Message, deltas: array<u32>, deltaCount: nat)
    returns (end: UploadEnd)
    requires deltaCount <= deltas.Length && Fits(chunk, 0, deltaCount)
    requires tx.Length == HEADER_LEN + chunk
    modifies sock, tx
    ensures end == Overran <==> Overruns(chunk, deltaCount)
    ensures end == Overran ==> sock.sent == old(sock.sent) && sock.room == old(sock.room)
    ensures end != Overran ==> Took(old(sock.sent), old(sock.room), sock.sent, sock.room,
                                    Wire(JitterParts(start, chunk, deltas[..deltaCount])), end == Sent)
  {
    ghost var wire := Wire(JitterParts(start, chunk, deltas[..deltaCount]));
    var perChunk := chunk / 4;
    if perChunk == 0 {
      perChunk := 1;
    }
    var jitterPayload := new byte[chunk];
    var off, index := 0, 0;
    while off < deltaCount
      invariant off == index * perChunk && index <= |wire|
      invariant off > 0 ==> chunk >= 4
      invariant index <= old(sock.room) && sock.room == old(sock.room) - index
      invariant sock.sent == old(sock.sent) + wire[..index]
      decreases deltaCount - off
    {
      ghost var was := sock.sent;
      NextPiece(chunk, deltaCount, index, off);
      end := SendNextJitter(sock, tx, jitterPayload, chunk, start, deltas, deltaCount, perChunk, off, index);
      if end != Sent {
        return;
      }
      TookOneMore(old(sock.sent), was, wire, index);
      off, index := off + perChunk, index + 1;
    }
    NextPiece(chunk, deltaCount, index, off);
    end := Sent;
  }

  /** The part of an upload before the jitter. */
  function UploadHead(start: Message, chunk: nat, raw: seq<byte>): seq<Message>
    requires Fits(chunk, |raw|, 0)
  {
    [Begin(start, chunk, |raw|)] + RawParts(start, chunk, raw)
  }

  method SendHead(sock: Socket, tx: array<byte>, chunk: nat, start: Message, raw: array<byte>, rawLen: nat)
    returns (ok: bool)
    requires rawLen <= raw.Length && Fits(chunk, rawLen, 0)
    requires tx.Length == HEADER_LEN + chunk && raw != tx
    modifies sock, tx
    ensures Took(old(sock.sent), old(sock.room), sock.sent, sock.room,
                 Wire(UploadHead(start, chunk, raw[..rawLen])), ok)
  {
    ghost var begin, parts := [Begin(start, chunk, rawLen)], RawParts(start, chunk, raw[..rawLen]);
    ghost var s0, r0 := sock.sent, sock.room;
    WireConcat(begin, parts);
    assert UploadHead(start, chunk, raw[..rawLen]) == begin + parts;
    ok := SendBinaryMsg(sock, tx, Begin(start, chunk, rawLen));
    ghost var s1, r1 := sock.sent, sock.room;
    assert Took(s0, r0, s1, r1, Wire(begin), ok);
    if !ok {
      NothingMore(s0, r0, s1, r1, Wire(begin), Wire(parts));
      return;
    }
    ok := SendRawParts(sock, tx, chunk, start, raw, rawLen);
    TookThen(s0, r0, s1, r1, sock.sent, sock.room, Wire(begin), true, Wire(parts), ok);
  }

  /** After a failed send the rest is not attempted. */
  lemma NothingMore(s0: seq<seq<byte>>, r0: nat, s1: seq<seq<byte>>, r1: nat, first: seq<seq<byte>>,
                    rest: seq<seq<byte>>)
    requires Took(s0, r0, s1, r1, first, false)
    ensures Took(s0, r0, s1, r1, first + rest, false)
  {
    assert (first + rest)[..r0] == first[..r0];
  }

  /** send_raw_stream. An upload sends the messages of Upload in order and stops
      at the first send that fails; it succeeds iff none does. With deltas and a
      chunk size under four it sends what comes before the jitter, and then the
      first delta overruns jitter_payload. */
  method SendRawStream(sock: Socket, tx: array<byte>, chunk: nat, start: Message,
                       raw: array<byte>, rawLen: nat, deltas: array<u32>, deltaCount: nat)
    returns (end: UploadEnd)
    requires rawLen <= raw.Length && deltaCount <= deltas.Length
    requires Fits(chunk, rawLen, deltaCount)
    requires tx.Length == HEADER_LEN + chunk && raw != tx
    modifies sock, tx
    ensures Overruns(chunk, deltaCount) ==>
      && end != Sent
      && Took(old(sock.sent), old(sock.room), sock.sent, sock.room,
              Wire(UploadHead(start, chunk, raw[..rawLen])), end == Overran)
    ensures !Overruns(chunk, deltaCount) ==>
      && end != Overran
      && Took(old(sock.sent), old(sock.room), sock.sent, sock.room,
              Wire(Upload(start, chunk, raw[..rawLen], deltas[..deltaCount])), end == Sent)
  {
    ghost var head := UploadHead(start, chunk, raw[..rawLen]);
    ghost var jitter := JitterParts(start, chunk, deltas[..deltaCount]);
    ghost var last := [End(start, chunk, rawLen)];
    ghost var s0, r0 := sock.sent, sock.room;
    WireConcat(jitter, last);
    WireConcat(head, jitter + last);
    assert Upload(start, chunk, raw[..rawLen], deltas[..deltaCount]) == head + (jitter + last);

    var ok := SendHead(sock, tx, chunk, start, raw, rawLen);
    ghost var s1, r1 := sock.sent, sock.room;
    if !ok {
      NothingMore(s0, r0, s1, r1, Wire(head), Wire(jitter + last));
      return SendFailed;
    }
    end := SendJitterParts(sock, tx, chunk, start, deltas, deltaCount);
    if end == Overran {
      return;
    }
    ghost var s2, r2 := sock.sent, sock.room;
    if end == Sent {
      ok := SendBinaryMsg(sock, tx, End(start, chunk, rawLen));
      assert Took(s2, r2, sock.sent, sock.room, Wire(last), ok);
      TookThen(s1, r1, s2, r2, sock.sent, sock.room, Wire(jitter), true, Wire(last), ok);
      end := if ok then Sent else SendFailed;
    } else {
      NothingMore(s1, r1, s2, r2, Wire(jitter), Wire(last));
    }
    TookThen(s0, r0, s1, r1, sock.sent, sock.room, Wire(head), true, Wire(jitter + last), end == Sent);
  }
}
