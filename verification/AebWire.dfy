/** The datagrams of an upload, field by field and byte by byte. */
module AebWire {
  import opened Bytes
  import opened AebMessage
  import opened AebUpload

  /** "AEB1", version 1, the type, four numbers and the nonce; then the payload. */
  lemma MessageLayout(m: Message)
    ensures
      var w := MakeMessage(m);
      && |w| == 40 + |m.payload| && w[0..6] == [0x41, 0x45, 0x42, 0x31, 1, 0]
      && w[6..8] == [m.kind % 256, m.kind / 256]
      && w[8..12] == Le(4, m.trial) && w[12..16] == Le(4, m.seqOrCount) && w[16..20] == Le(4, m.intervalUs)
      && w[20..24] == Le(4, m.sampleBytes) && w[24..40] == m.nonce && w[40..] == m.payload
  {
    var w := MakeMessage(m);
    assert w[..HEADER_LEN] == Header(m) && w[HEADER_LEN..] == m.payload;
    HeaderSlices(m, w);
    MagicBytes(MAGIC, VERSION);
    LeBytes(m.kind);
    Adjoin(w, 0, 4, 6);
  }

  lemma MagicBytes(magic: u32, version: u16)
    requires magic == MAGIC && version == VERSION
    ensures Le(4, magic) == [0x41, 0x45, 0x42, 0x31] && Le(2, version) == [1, 0]
  {
    LeBytes(magic);
    LeBytes(version);
  }

  /** The part of s between two offsets, each cut to its end. */
  function Range<T>(s: seq<T>, from: nat, until: nat): seq<T>
    requires from <= until
  {
    s[Min(from, |s|)..Min(until, |s|)]
  }

  lemma PieceRange<T>(s: seq<T>, size: nat, i: nat, off: nat)
    requires size >= 1 && off == i * size
    ensures Piece(s, size, i) == Range(s, off, off + size)
  {
  }

  /** The raw chunks: of `chunk` bytes each but for the last, numbered from 0. */
  lemma RawPartSays(start: Message, chunk: nat, raw: seq<byte>, i: u32, off: nat)
    requires Fits(chunk, |raw|, 0) && off == i * chunk
    ensures
      var part := Range(raw, off, off + chunk);
      RawPart(start, chunk, raw, i)
      == Message(RAW_CHUNK, start.trial, i, start.intervalUs, |part|, start.nonce, part)
  {
    PieceRange(raw, chunk, i, off);
  }

  /** The jitter chunks: a quarter as many deltas, but at least one. */
  lemma JitterPartSays(start: Message, chunk: nat, deltas: seq<u32>, j: u32, per: nat, off: nat, part: seq<u32>)
    requires Fits(chunk, 0, |deltas|) && per == (if chunk < 4 then 1 else chunk / 4) && off == j * per
    requires part == Range(deltas, off, off + per) && 4 * |part| < U32_LIMIT
    ensures JitterPart(start, chunk, deltas, j)
         == Message(JITTER_CHUNK, start.trial, j, start.intervalUs, 4 * |part|, start.nonce, PackLe32(part))
  {
    PerChunkIs(chunk, per);
    PieceRange(deltas, per, j, off);
    JitterPartWith(start, chunk, deltas, j, part);
  }

  lemma JitterPartWith(start: Message, chunk: nat, deltas: seq<u32>, j: u32, part: seq<u32>)
    requires Fits(chunk, 0, |deltas|) && part == Piece(deltas, PerChunk(chunk), j) && 4 * |part| < U32_LIMIT
    ensures JitterPart(start, chunk, deltas, j)
         == Message(JITTER_CHUNK, start.trial, j, start.intervalUs, 4 * |part|, start.nonce, PackLe32(part))
  {
    var packed := PackLe32(part);
    NoWrap(|packed|);
  }

  lemma NoWrap(n: nat)
    requires n < U32_LIMIT
    ensures n % U32_LIMIT == n
  {
  }

  lemma PerChunkIs(chunk: nat, per: nat)
    requires per == if chunk < 4 then 1 else chunk / 4
    ensures PerChunk(chunk) == per >= 1
  {
  }

  /** The whole upload: RAW_BEGIN, as many raw chunks as it takes, as many jitter
      chunks as it takes, RAW_END; the first and the last announce the number of
      raw chunks and of bytes. */
  lemma UploadSays(start: Message, chunk: nat, raw: seq<byte>, deltas: seq<u32>)
    requires Fits(chunk, |raw|, |deltas|)
    ensures
      var u := Upload(start, chunk, raw, deltas);
      var per := if chunk < 4 then 1 else chunk / 4;
      var n, k := (|raw| + chunk - 1) / chunk, (|deltas| + per - 1) / per;
      && |u| == n + k + 2 && n < U32_LIMIT
      && u[0] == Message(RAW_BEGIN, start.trial, n, start.intervalUs, |raw|, start.nonce, [])
      && (forall i: u32 :: i < n ==> u[1 + i] == RawPart(start, chunk, raw, i))
      && (forall j: u32 :: j < k ==> u[1 + n + j] == JitterPart(start, chunk, deltas, j))
      && u[n + k + 1] == Message(RAW_END, start.trial, n, start.intervalUs, |raw|, start.nonce, [])
  {
    ChunkCounts(chunk, |raw|, |deltas|);
  }
}
