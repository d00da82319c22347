/** What a filed row says, column by column, in terms of the trial alone. */
module AebRow {
  import opened Bytes
  import opened PyText
  import opened AebMessage
  import opened AebCollector

  /** The digest of data, and whether the result line's field of this name is that
      digest. */
  ghost predicate Compared(cfg: Config, reported: map<string, string>, name: string, data: seq<byte>, d: Digest) {
    && d.hex == cfg.sha256(data)
    && d.matches == Some(name in reported && reported[name] != "" && reported[name] == cfg.sha256(data))
  }

  /** Chunks 0, 1, ... of the trial. */
  function FirstChunks(chunks: map<u32, seq<byte>>, n: u32): (parts: seq<seq<byte>>)
    requires forall k: u32 :: k < n ==> k in chunks
    ensures |parts| == n && forall k :: 0 <= k < n ==> parts[k] == chunks[k]
  {
    seq(n, k requires 0 <= k < n => chunks[k])
  }

  /** All chunks there are, by ascending index. */
  ghost function AllChunks(chunks: map<u32, seq<byte>>): (parts: seq<seq<byte>>)
    ensures |parts| == |Ascending(chunks.Keys)|
    ensures forall i :: 0 <= i < |parts| ==>
      Ascending(chunks.Keys)[i] in chunks && parts[i] == chunks[Ascending(chunks.Keys)[i]]
  {
    var keys := Ascending(chunks.Keys);
    assert forall k :: k in keys ==> k in chunks;
    seq(|keys|, i requires 0 <= i < |keys| => chunks[keys[i]])
  }

  function Unpacked(parts: seq<seq<byte>>): (r: seq<seq<u32>>)
    ensures |r| == |parts| && forall i :: 0 <= i < |r| ==> r[i] == UnpackLe32(parts[i])
  {
    seq(|parts|, i requires 0 <= i < |parts| => UnpackLe32(parts[i]))
  }

  // ---- the columns ----

  /** Complete: chunks are expected, none of the expected ones is missing, and they
      are at least as long as announced. */
  ghost predicate Completes(t: Trial, expected: u32, rawLen: u32) {
    && expected > 0 && rawLen > 0 && (forall k: u32 :: k < expected ==> k in t.raw)
    && |Flatten(FirstChunks(t.raw, expected))| >= rawLen
  }

  ghost predicate CountColumns(t: Trial, expected: u32, row: Row) {
    && row.expected == expected && row.chunksSeen == |t.raw|
    && (forall k: u32 :: k in row.missing <==> k < expected && k !in t.raw)
    && (forall i, j :: 0 <= i < j < |row.missing| ==> row.missing[i] < row.missing[j])
  }

  ghost predicate CompleteRaw(cfg: Config, t: Trial, expected: u32, rawLen: u32, row: Row)
    requires Completes(t, expected, rawLen)
  {
    && row.raw == Flatten(FirstChunks(t.raw, expected))[..rawLen] && row.partial == []
    && Compared(cfg, t.result, "raw_sha256", row.raw, row.rawDigest)
  }

  ghost predicate PartialRaw(cfg: Config, t: Trial, row: Row) {
    && row.raw == [] && row.partial == Flatten(AllChunks(t.raw))
    && row.rawDigest == if t.raw == map[] then Digest("", None) else Digest(cfg.sha256(row.partial), None)
  }

  ghost predicate RawColumns(cfg: Config, t: Trial, expected: u32, rawLen: u32, row: Row) {
    && CountColumns(t, expected, row)
    && (row.complete <==> Completes(t, expected, rawLen))
    && if row.complete then CompleteRaw(cfg, t, expected, rawLen, row) else PartialRaw(cfg, t, row)
  }

  /** The interval of the result line if it gives one, else that of the START. */
  ghost predicate IntervalColumn(cfg: Config, t: Trial, intervalUs: int) {
    if "interval_us" in t.result && t.result["interval_us"] != "" then
      cfg.ToInt(t.result["interval_us"]) == Some(intervalUs)
    else intervalUs == t.intervalUs
  }

  /** The word that a residual is stored as, read as a signed number. */
  function AsSigned(w: u32): int {
    if w >= 2147483648 then w - 4294967296 else w
  }

  ghost predicate ResidualFile(row: Row) {
    && |row.residual| == 4 * |row.jitters|
    && |UnpackLe32(row.residual)| == |row.jitters|
    && forall i :: 0 <= i < |row.jitters| ==> AsSigned(UnpackLe32(row.residual)[i]) == row.jitters[i] - row.intervalUs
  }

  ghost predicate JitterColumns(cfg: Config, t: Trial, row: Row) {
    && row.jitters == Flatten(Unpacked(AllChunks(t.jitter)))
    && row.delta == PackLe32(row.jitters)
    && (row.jitters == [] ==> row.residual == [] && row.jitterDigest == Digest("", None))
    && (row.jitters != [] ==>
          && IntervalColumn(cfg, t, row.intervalUs) && ResidualFile(row)
          && Compared(cfg, t.result, "jitter_sha256", row.delta, row.jitterDigest))
  }

  ghost predicate ResponseColumns(cfg: Config, t: Trial, row: Row) {
    if row.complete then
      && row.response == row.raw + row.delta
      && Compared(cfg, t.result, "response_sha256", row.response, row.responseDigest)
    else row.response == [] && row.responseDigest == Digest("", None)
  }

  ghost predicate OtherColumns(key: Key, t: Trial, row: Row) {
    && row.captureId == t.captureId && row.key == key && row.reported == t.result && row.askedUs == t.intervalUs
    && row.helloNonce == t.helloNonce && row.startNonce == t.startNonce
  }

  ghost predicate Columns(cfg: Config, key: Key, t: Trial, expected: u32, rawLen: u32, row: Row) {
    && OtherColumns(key, t, row) && RawColumns(cfg, t, expected, rawLen, row)
    && JitterColumns(cfg, t, row) && ResponseColumns(cfg, t, row)
  }

  // ---- the pieces ----

  lemma {:induction false} JoinFirstIs(chunks: map<u32, seq<byte>>, n: u32)
    requires forall k: u32 :: k < n ==> k in chunks
    ensures JoinFirst(chunks, n) == Flatten(FirstChunks(chunks, n))
  {
    if n > 0 {
      JoinFirstIs(chunks, n - 1);
      assert FirstChunks(chunks, n)[..n - 1] == FirstChunks(chunks, n - 1);
    }
  }

  lemma {:induction false} JoinIs(chunks: map<u32, seq<byte>>, keys: seq<u32>, parts: seq<seq<byte>>)
    requires |parts| == |keys| && forall i :: 0 <= i < |keys| ==> keys[i] in chunks && parts[i] == chunks[keys[i]]
    ensures forall k :: k in keys ==> k in chunks
    ensures Join(chunks, keys) == Flatten(parts)
  {
    if keys != [] {
      JoinIs(chunks, keys[..|keys| - 1], parts[..|parts| - 1]);
    }
  }

  lemma {:induction false} ValuesAre(chunks: map<u32, seq<byte>>, keys: seq<u32>, parts: seq<seq<byte>>)
    requires |parts| == |keys| && forall i :: 0 <= i < |keys| ==> keys[i] in chunks && parts[i] == chunks[keys[i]]
    ensures forall k :: k in keys ==> k in chunks
    ensures ValuesIn(chunks, keys) == Flatten(Unpacked(parts))
  {
    if keys != [] {
      var n := |keys| - 1;
      ValuesAre(chunks, keys[..n], parts[..n]);
      assert Unpacked(parts)[..n] == Unpacked(parts[..n]);
    }
  }

  lemma ReassembledIs(t: Trial, expected: u32, rawLen: u32)
    ensures Reassembled(t.raw, expected, rawLen).Some? <==> Completes(t, expected, rawLen)
    ensures Completes(t, expected, rawLen) ==>
      Reassembled(t.raw, expected, rawLen).value == Flatten(FirstChunks(t.raw, expected))[..rawLen]
  {
    if Missing(t.raw, expected) == [] {
      forall k: u32 | k < expected
        ensures k in t.raw
      {
        assert k !in Missing(t.raw, expected);
      }
      JoinFirstIs(t.raw, expected);
    } else {
      assert Missing(t.raw, expected)[0] in Missing(t.raw, expected);
    }
  }

  lemma JitterIs(t: Trial)
    ensures JitterValues(t.jitter) == Flatten(Unpacked(AllChunks(t.jitter)))
  {
    ValuesAre(t.jitter, Ascending(t.jitter.Keys), AllChunks(t.jitter));
  }

  lemma SignedIs(v: int)
    requires FitsS32(v)
    ensures 0 <= v % U32_LIMIT < U32_LIMIT && AsSigned(v % U32_LIMIT) == v
  {
  }

  lemma {:induction false} ResidualsAre(values: seq<u32>, intervalUs: int)
    requires ResidualsFit(values, intervalUs)
    ensures
      var words := UnpackLe32(PackResiduals(values, intervalUs));
      |words| == |values| && forall i :: 0 <= i < |values| ==> AsSigned(words[i]) == values[i] - intervalUs
  {
    if values != [] {
      var w := (values[0] - intervalUs) % U32_LIMIT;
      var s, rest := PackResiduals(values, intervalUs), PackResiduals(values[1..], intervalUs);
      assert values[0] in values && forall v :: v in values[1..] ==> v in values;
      SignedIs(values[0] - intervalUs);
      ResidualsAre(values[1..], intervalUs);
      assert s[..4] == Le(4, w) && s[4..] == rest;
      RadixValues();
      LeRoundTrip(4, w);
      assert UnpackLe32(s) == [w] + UnpackLe32(rest);
    }
  }

  lemma IntervalIs(cfg: Config, t: Trial)
    requires IntervalFor(cfg, t).Some?
    ensures IntervalColumn(cfg, t, IntervalFor(cfg, t).value)
  {
  }

  lemma ComparedIs(cfg: Config, t: Trial, name: string, data: seq<byte>)
    ensures Compared(cfg, t.result, name, data, CheckDigest(cfg, t, name, data))
  {
  }

  // ---- the rows ----

  lemma {:induction false} MissingAscends(chunks: map<u32, seq<byte>>, n: u32)
    ensures forall i, j :: 0 <= i < j < |Missing(chunks, n)| ==> Missing(chunks, n)[i] < Missing(chunks, n)[j]
  {
    if n > 0 {
      MissingAscends(chunks, n - 1);
      var rest := Missing(chunks, n - 1);
      assert forall i :: 0 <= i < |rest| ==> rest[i] in rest;
    }
  }

  lemma PartialIs(t: Trial)
    ensures forall k :: k in Ascending(t.raw.Keys) ==> k in t.raw
    ensures Join(t.raw, Ascending(t.raw.Keys)) == Flatten(AllChunks(t.raw))
  {
    JoinIs(t.raw, Ascending(t.raw.Keys), AllChunks(t.raw));
  }

  /** The row's raw half, as finalizing computes it. */
  ghost predicate RawMade(cfg: Config, t: Trial, expected: u32, rawLen: u32, row: Row) {
    var found := Reassembled(t.raw, expected, rawLen);
    && row.complete == found.Some? && row.expected == expected && row.chunksSeen == |t.raw|
    && row.missing == Missing(t.raw, expected)
    && row.raw == (if found.Some? then found.value else [])
    && row.partial == (if found.None? then Join(t.raw, Ascending(t.raw.Keys)) else [])
    && row.rawDigest == RawDigest(cfg, t, found, row.partial)
  }

  /** Its jitter half. */
  ghost predicate JitterMade(cfg: Config, t: Trial, row: Row) {
    && row.jitters == JitterValues(t.jitter) && row.delta == PackLe32(row.jitters)
    && (row.jitters == [] ==> row.residual == [] && row.jitterDigest == NO_DIGEST)
    && (row.jitters != [] ==>
          && !Unpackable(cfg, t, row.jitters)
          && row.intervalUs == IntervalFor(cfg, t).value && row.residual == PackResiduals(row.jitters, row.intervalUs)
          && row.jitterDigest == CheckDigest(cfg, t, "jitter_sha256", row.delta))
  }

  lemma FiledRaw(cfg: Config, key: Key, t: Trial, expected: u32, rawLen: u32, row: Row)
    requires Finalize(cfg, key, t, expected, rawLen) == Filed(row)
    ensures RawMade(cfg, t, expected, rawLen, row)
  {
  }

  lemma FiledJitter(cfg: Config, key: Key, t: Trial, expected: u32, rawLen: u32, row: Row)
    requires Finalize(cfg, key, t, expected, rawLen) == Filed(row)
    ensures JitterMade(cfg, t, row)
  {
  }

  lemma FiledOthers(cfg: Config, key: Key, t: Trial, expected: u32, rawLen: u32, row: Row)
    requires Finalize(cfg, key, t, expected, rawLen) == Filed(row)
    ensures OtherColumns(key, t, row)
  {
  }

  lemma FiledResponse(cfg: Config, key: Key, t: Trial, expected: u32, rawLen: u32, row: Row)
    requires Finalize(cfg, key, t, expected, rawLen) == Filed(row)
    ensures ResponseColumns(cfg, t, row)
  {
  }

  lemma CountColumnsOf(t: Trial, expected: u32, row: Row)
    requires row.expected == expected && row.chunksSeen == |t.raw| && row.missing == Missing(t.raw, expected)
    ensures CountColumns(t, expected, row)
  {
    MissingAscends(t.raw, expected);
  }

  lemma RawColumnsOf(cfg: Config, t: Trial, expected: u32, rawLen: u32, row: Row)
    requires RawMade(cfg, t, expected, rawLen, row)
    ensures RawColumns(cfg, t, expected, rawLen, row)
  {
    CountColumnsOf(t, expected, row);
    ReassembledIs(t, expected, rawLen);
    if row.complete {
      ComparedIs(cfg, t, "raw_sha256", row.raw);
    } else {
      PartialIs(t);
    }
  }

  lemma JitterColumnsOf(cfg: Config, t: Trial, row: Row)
    requires JitterMade(cfg, t, row)
    ensures JitterColumns(cfg, t, row)
  {
    JitterIs(t);
    if row.jitters != [] {
      IntervalIs(cfg, t);
      ResidualsAre(row.jitters, row.intervalUs);
      ComparedIs(cfg, t, "jitter_sha256", row.delta);
    }
  }

  /** Every column of every row that finalizing files. */
  lemma RowColumns(cfg: Config, key: Key, t: Trial, expected: u32, rawLen: u32, row: Row)
    requires Finalize(cfg, key, t, expected, rawLen) == Filed(row)
    ensures Columns(cfg, key, t, expected, rawLen, row)
  {
    FiledRaw(cfg, key, t, expected, rawLen, row);
    FiledJitter(cfg, key, t, expected, rawLen, row);
    FiledOthers(cfg, key, t, expected, rawLen, row);
    FiledResponse(cfg, key, t, expected, rawLen, row);
    RawColumnsOf(cfg, t, expected, rawLen, row);
    JitterColumnsOf(cfg, t, row);
  }

  /** When the trial has jitter and its reported interval is no number, finalizing
      raises. */
  lemma RaisesWithoutInterval(cfg: Config, key: Key, t: Trial, expected: u32, rawLen: u32)
    requires Flatten(Unpacked(AllChunks(t.jitter))) != []
    requires "interval_us" in t.result && t.result["interval_us"] != "" && cfg.ToInt(t.result["interval_us"]) == None
    ensures Finalize(cfg, key, t, expected, rawLen).Raised?
  {
    JitterIs(t);
  }

  /** Some value lies outside the signed 32-bit range around the interval. */
  ghost predicate FarFrom(values: seq<u32>, us: int) {
    exists v :: v in values && !(-2147483648 <= v - us < 2147483648)
  }

  lemma UnfitIsFar(values: seq<u32>, us: int)
    ensures !ResidualsFit(values, us) <==> FarFrom(values, us)
  {
    if v :| v in values && !FitsS32(v - us) {
      assert v in values;
    }
  }

  /** Otherwise it raises iff some residual does not fit 32 bits with a sign. */
  lemma RaisesIff(cfg: Config, key: Key, t: Trial, expected: u32, rawLen: u32, us: int)
    requires IntervalColumn(cfg, t, us)
    ensures Finalize(cfg, key, t, expected, rawLen).Raised? <==> FarFrom(Flatten(Unpacked(AllChunks(t.jitter))), us)
  {
    JitterIs(t);
    UnfitIsFar(JitterValues(t.jitter), us);
    assert IntervalFor(cfg, t) == Some(us);
  }

  /** Then the raw bytes of a complete trial have been appended, and nothing of any
      other. */
  lemma RaisedAppends(cfg: Config, key: Key, t: Trial, expected: u32, rawLen: u32)
    requires Finalize(cfg, key, t, expected, rawLen).Raised?
    ensures Finalize(cfg, key, t, expected, rawLen).appended ==
      if Completes(t, expected, rawLen) then Flatten(FirstChunks(t.raw, expected))[..rawLen] else []
  {
    ReassembledIs(t, expected, rawLen);
  }
}
