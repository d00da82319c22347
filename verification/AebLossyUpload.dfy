/** A lossy upload of device buffers: when the collector counts it complete, and
    that what it stores is what the device measured and hashed. */
module AebLossyUpload {
  import opened Bytes
  import opened AebMessage
  import opened AebUpload
  import opened AebCollector
  import opened AebNetwork
  import opened PyText
  import opened AebRow

  /** One upload that the firmware can send. */
  datatype Session = Session(key: Key, start: Message, chunk: nat, raw: seq<byte>, deltas: seq<u32>)
  {
    ghost predicate Valid() {
      key.trial == start.trial && Fits(chunk, |raw|, |deltas|) && !Overruns(chunk, |deltas|)
    }
  }

  /** The payloads that send_raw_stream cuts the two buffers into. */
  function PlanOf(x: Session): (p: Plan)
    requires x.Valid()
    ensures p.Valid() && p.key == x.key && p.start == x.start && p.rawLen == |x.raw|
    ensures |p.raw| == RawChunks(x.chunk, |x.raw|) && |p.jitter| == JitterChunks(x.chunk, |x.deltas|)
    ensures forall i :: 0 <= i < |p.raw| ==> p.raw[i] == Piece(x.raw, x.chunk, i)
    ensures forall j :: 0 <= j < |p.jitter| ==> p.jitter[j] == PackLe32(Piece(x.deltas, PerChunk(x.chunk), j))
  {
    ChunkCounts(x.chunk, |x.raw|, |x.deltas|);
    Plan(x.key, x.start, |x.raw|,
         seq(RawChunks(x.chunk, |x.raw|), (i: nat) => Piece(x.raw, x.chunk, i)),
         seq(JitterChunks(x.chunk, |x.deltas|), (j: nat) => PackLe32(Piece(x.deltas, PerChunk(x.chunk), j))))
  }

  /** The plan's messages are the upload's: its begin, its parts, its end. */
  lemma PlanIsUpload(x: Session)
    requires x.Valid()
    ensures
      var p := PlanOf(x);
      Upload(x.start, x.chunk, x.raw, x.deltas)
      == [p.Begin()] + seq(|p.raw|, i requires 0 <= i < |p.raw| => p.RawPart(i))
         + seq(|p.jitter|, j requires 0 <= j < |p.jitter| => p.JitterPart(j)) + [p.End()]
  {
    var p := PlanOf(x);
    assert RawParts(x.start, x.chunk, x.raw) == seq(|p.raw|, i requires 0 <= i < |p.raw| => p.RawPart(i));
    forall j: u32 | j < |p.jitter|
      ensures JitterPart(x.start, x.chunk, x.deltas, j) == p.JitterPart(j)
    {
    }
    assert JitterParts(x.start, x.chunk, x.deltas)
        == seq(|p.jitter|, j requires 0 <= j < |p.jitter| => p.JitterPart(j));
  }

  // ---- reassembly ----

  /** Joining whole chunks gives the buffer prefix they cover; if the first
      chunk was cut by the receive buffer, the join stays short of it. */
  lemma {:induction false} JoinCovers(raw: seq<byte>, chunk: nat, chunks: map<u32, seq<byte>>, n: u32, off: nat)
    requires chunk >= 1 && off == n * chunk
    requires forall i: u32 :: i < n ==> i in chunks && chunks[i] == Truncated(Piece(raw, chunk, i), PAYLOAD_LIMIT)
    ensures Min(chunk, |raw|) <= PAYLOAD_LIMIT ==> JoinFirst(chunks, n) == raw[..Min(off, |raw|)]
    ensures Min(chunk, |raw|) > PAYLOAD_LIMIT && n > 0 ==> |JoinFirst(chunks, n)| < Min(off, |raw|)
  {
    if n > 0 {
      assert (n - 1 + 1) * chunk == (n - 1) * chunk + chunk;
      JoinCovers(raw, chunk, chunks, n - 1, off - chunk);
      PieceAppends(raw, chunk, n - 1, off - chunk);
    }
  }

  /** The chunks that a buffer is cut into reach its end. */
  lemma ChunksReach(chunk: nat, len: nat, n: nat, off: nat)
    requires chunk >= 1 && n == RawChunks(chunk, len) && off == n * chunk
    ensures off >= len && (n == 0 <==> len == 0)
  {
    PieceStartsInside(chunk, len, 0);
    PieceStartsInside(chunk, len, n);
  }

  lemma JoinAll(raw: seq<byte>, chunk: nat, chunks: map<u32, seq<byte>>, n: u32)
    requires chunk >= 1 && n == RawChunks(chunk, |raw|)
    requires forall i: u32 :: i < n ==> i in chunks && chunks[i] == Truncated(Piece(raw, chunk, i), PAYLOAD_LIMIT)
    ensures n == 0 <==> raw == []
    ensures Min(chunk, |raw|) <= PAYLOAD_LIMIT ==> JoinFirst(chunks, n) == raw
    ensures Min(chunk, |raw|) > PAYLOAD_LIMIT ==> |JoinFirst(chunks, n)| < |raw|
  {
    var off: nat := n * chunk;
    ChunksReach(chunk, |raw|, n, off);
    JoinCovers(raw, chunk, chunks, n, off);
  }

  lemma NoneMissing(x: Session, t0: Trial, t: Trial, ds: seq<Delivery>)
    requires x.Valid() && Holds(PlanOf(x), t0, t, ds) && Missing(t.raw, |PlanOf(x).raw|) == []
    ensures forall i: u32 :: i < |PlanOf(x).raw| ==> RawCopy(i) in ds && i in t.raw
  {
    var n: u32 := |PlanOf(x).raw|;
    forall i: u32 | i < n
      ensures i in t.raw && RawCopy(i) in ds
    {
      assert i !in Missing(t.raw, n);
      assert i in t.raw.Keys;
    }
  }

  /** A trial is complete iff every raw chunk arrived and no chunk exceeds what
      the collector's receive buffer takes; then the bytes are the device's. */
  lemma CompleteIff(x: Session, t0: Trial, t: Trial, ds: seq<Delivery>)
    requires x.Valid() && Holds(PlanOf(x), t0, t, ds)
    ensures
      var p := PlanOf(x);
      var found := Reassembled(t.raw, |p.raw|, |x.raw|);
      (found.Some? <==>
        |x.raw| > 0 && (forall i: u32 :: i < |p.raw| ==> RawCopy(i) in ds) && Min(x.chunk, |x.raw|) <= PAYLOAD_LIMIT)
      && (found.Some? ==> found.value == x.raw)
  {
    var n: u32 := |PlanOf(x).raw|;
    if Missing(t.raw, n) == [] {
      NoneMissing(x, t0, t, ds);
      JoinAll(x.raw, x.chunk, t.raw, n);
    } else {
      var i := Missing(t.raw, n)[0];
      assert i in Missing(t.raw, n);
      assert i !in t.raw.Keys && i < n;
    }
  }

  // ---- jitter ----

  /** The deltas cut into jitter chunks. */
  function DeltaPieces(x: Session): (pieces: seq<seq<u32>>)
    requires x.Valid()
    ensures |pieces| == |PlanOf(x).jitter|
    ensures forall j :: 0 <= j < |pieces| ==>
              pieces[j] == Piece(x.deltas, PerChunk(x.chunk), j) && PlanOf(x).jitter[j] == PackLe32(pieces[j])
  {
    seq(JitterChunks(x.chunk, |x.deltas|), (j: nat) => Piece(x.deltas, PerChunk(x.chunk), j))
  }

  lemma DeltaPiecesCover(x: Session)
    requires x.Valid()
    ensures Flatten(DeltaPieces(x)) == x.deltas
    ensures forall j :: 0 <= j < |DeltaPieces(x)| ==> DeltaPieces(x)[j] != []
  {
    var size, n := PerChunk(x.chunk), |DeltaPieces(x)|;
    PieceStartsInside(size, |x.deltas|, n);
    PiecesCover(x.deltas, size, DeltaPieces(x), n * size);
    forall j | 0 <= j < n
      ensures DeltaPieces(x)[j] != []
    {
      PieceStartsInside(size, |x.deltas|, j);
    }
  }

  /** The pieces with the given indices, joined in that order. */
  ghost function Selected(pieces: seq<seq<u32>>, keys: seq<u32>): seq<u32>
    requires forall i :: 0 <= i < |keys| ==> keys[i] < |pieces|
  {
    if keys == [] then [] else Selected(pieces, keys[..|keys| - 1]) + pieces[keys[|keys| - 1]]
  }

  /** Deltas that fit one receive. */
  const KEPT := PAYLOAD_LIMIT / 4

  /** What the collector's receive buffer keeps of a jitter chunk. */
  function Kept(piece: seq<u32>): (k: seq<u32>)
    ensures |k| == Min(|piece|, KEPT)
  {
    if |piece| <= KEPT then piece else piece[..KEPT]
  }

  lemma PackPrefix(values: seq<u32>, n: nat)
    requires n <= |values|
    ensures PackLe32(values)[..4 * n] == PackLe32(values[..n])
  {
    assert values == values[..n] + values[n..];
    PackConcat(values[..n], values[n..]);
  }

  /** The receive cuts a jitter chunk between two deltas. */
  lemma CutPayload(piece: seq<u32>)
    ensures UnpackLe32(Truncated(PackLe32(piece), PAYLOAD_LIMIT)) == Kept(piece)
  {
    UnpackOfPack(Kept(piece));
    if |piece| > KEPT {
      PackPrefix(piece, KEPT);
    }
  }

  /** The pieces as they are received. */
  function KeptPieces(x: Session): (kept: seq<seq<u32>>)
    requires x.Valid()
    ensures |kept| == |DeltaPieces(x)| && forall j :: 0 <= j < |kept| ==> kept[j] == Kept(DeltaPieces(x)[j])
  {
    seq(|DeltaPieces(x)|, j requires 0 <= j < |DeltaPieces(x)| => Kept(DeltaPieces(x)[j]))
  }

  lemma {:induction false} ValuesAreSelected(pieces: seq<seq<u32>>, kept: seq<seq<u32>>, chunks: map<u32, seq<byte>>,
                                             keys: seq<u32>)
    requires |kept| == |pieces| && forall j :: 0 <= j < |kept| ==> kept[j] == Kept(pieces[j])
    requires forall i :: 0 <= i < |keys| ==>
               && keys[i] < |pieces| && keys[i] in chunks
               && chunks[keys[i]] == Truncated(PackLe32(pieces[keys[i]]), PAYLOAD_LIMIT)
    ensures ValuesIn(chunks, keys) == Selected(kept, keys)
  {
    if keys != [] {
      ValuesAreSelected(pieces, kept, chunks, keys[..|keys| - 1]);
      CutPayload(pieces[keys[|keys| - 1]]);
    }
  }

  /** A strictly increasing list of piece numbers below n. */
  predicate Picks(keys: seq<u32>, n: nat) {
    (forall i :: 0 <= i < |keys| ==> keys[i] < n) && (forall i, j :: 0 <= i < j < |keys| ==> keys[i] < keys[j])
  }

  lemma AscendingPicks(keys: set<u32>, n: nat)
    requires forall k :: k in keys ==> k < n
    ensures Picks(Ascending(keys), n)
  {
    forall i | 0 <= i < |Ascending(keys)|
      ensures Ascending(keys)[i] < n
    {
      assert Ascending(keys)[i] in Ascending(keys);
    }
  }

  /** A selection that lacks a piece is shorter than the whole. */
  lemma {:induction false} SelectionShort(pieces: seq<seq<u32>>, keys: seq<u32>, n: nat, missing: u32)
    requires n <= |pieces| && (forall j :: 0 <= j < |pieces| ==> pieces[j] != [])
    requires Picks(keys, n)
    ensures |Selected(pieces, keys)| + (if missing < n && missing !in keys then 1 else 0) <= |Flatten(pieces[..n])|
  {
    if n > 0 {
      assert pieces[..n][..n - 1] == pieces[..n - 1];
      var m := |keys| - 1;
      if keys != [] && keys[m] == n - 1 {
        SelectionShort(pieces, keys[..m], n - 1, missing);
      } else {
        SelectionShort(pieces, keys, n - 1, missing);
      }
    }
  }

  /** A selection that lacks none is the whole. */
  lemma {:induction false} SelectionFull(pieces: seq<seq<u32>>, keys: seq<u32>, n: nat)
    requires n <= |pieces| < U32_LIMIT && Picks(keys, n)
    requires forall k: u32 :: k < n ==> k in keys
    ensures Selected(pieces, keys) == Flatten(pieces[..n])
  {
    if n > 0 {
      assert pieces[..n][..n - 1] == pieces[..n - 1];
      var last: u32, m := n - 1, |keys| - 1;
      assert last in keys;
      assert keys[m] == last;
      forall k: u32 | k < last
        ensures k in keys[..m]
      {
        assert k in keys;
      }
      SelectionFull(pieces, keys[..m], n - 1);
    }
  }

  lemma SelectionFullIff(pieces: seq<seq<u32>>, keys: seq<u32>)
    requires |pieces| < U32_LIMIT && Picks(keys, |pieces|)
    requires forall j :: 0 <= j < |pieces| ==> pieces[j] != []
    ensures |Selected(pieces, keys)| == |Flatten(pieces)| <==> (forall k: u32 :: k < |pieces| ==> k in keys)
    ensures |Selected(pieces, keys)| == |Flatten(pieces)| ==> Selected(pieces, keys) == Flatten(pieces)
  {
    assert pieces[..|pieces|] == pieces;
    if k: u32 :| k < |pieces| && k !in keys {
      SelectionShort(pieces, keys, |pieces|, k);
    } else {
      SelectionFull(pieces, keys, |pieces|);
    }
  }

  /** No jitter chunk exceeds what the collector receives. */
  predicate JitterUncut(x: Session) {
    4 * Min(PerChunk(x.chunk), |x.deltas|) <= PAYLOAD_LIMIT
  }

  /** Cut pieces together are shorter than the whole. */
  lemma {:induction false} CutShortens(kept: seq<seq<u32>>, pieces: seq<seq<u32>>, n: nat)
    requires |kept| == |pieces| && n <= |pieces|
    requires forall j :: 0 <= j < |kept| ==> |kept[j]| <= |pieces[j]|
    requires n > 0 ==> |kept[0]| < |pieces[0]|
    ensures |Flatten(kept[..n])| + (if n > 0 then 1 else 0) <= |Flatten(pieces[..n])|
  {
    if n > 0 {
      assert kept[..n][..n - 1] == kept[..n - 1] && pieces[..n][..n - 1] == pieces[..n - 1];
      CutShortens(kept, pieces, n - 1);
    }
  }

  lemma FirstPieceCutIff(x: Session)
    requires x.Valid() && x.deltas != []
    ensures |DeltaPieces(x)| > 0
    ensures |Kept(DeltaPieces(x)[0])| < |DeltaPieces(x)[0]| <==> !JitterUncut(x)
  {
    PieceStartsInside(PerChunk(x.chunk), |x.deltas|, 0);
  }

  lemma UncutPieces(x: Session)
    requires x.Valid() && JitterUncut(x)
    ensures KeptPieces(x) == DeltaPieces(x)
  {
  }

  /** The chunks of this upload that arrived, as received, joined in index order. */
  ghost function Collected(x: Session, ds: seq<Delivery>): seq<u32>
    requires x.Valid()
  {
    AscendingPicks(JitterArrived(PlanOf(x), ds), |KeptPieces(x)|);
    Selected(KeptPieces(x), Ascending(JitterArrived(PlanOf(x), ds)))
  }

  predicate AllJitter(x: Session, ds: seq<Delivery>)
    requires x.Valid()
  {
    forall j: u32 :: j < |PlanOf(x).jitter| ==> JitterCopy(j) in ds
  }

  predicate AllRaw(x: Session, ds: seq<Delivery>)
    requires x.Valid()
  {
    forall i: u32 :: i < |PlanOf(x).raw| ==> RawCopy(i) in ds
  }

  lemma CutIsNotFull(x: Session, keys: seq<u32>)
    requires x.Valid() && !JitterUncut(x) && Picks(keys, |KeptPieces(x)|)
    ensures |Selected(KeptPieces(x), keys)| < |x.deltas|
  {
    var kept, pieces := KeptPieces(x), DeltaPieces(x);
    DeltaPiecesCover(x);
    FirstPieceCutIff(x);
    SelectionShort(kept, keys, |kept|, 0);
    CutShortens(kept, pieces, |pieces|);
    assert kept[..|kept|] == kept && pieces[..|pieces|] == pieces;
  }

  /** The collected deltas are all of them iff every jitter chunk arrived and
      none was cut by the receive. */
  lemma CollectedFullIff(x: Session, ds: seq<Delivery>)
    requires x.Valid()
    ensures |Collected(x, ds)| == |x.deltas| <==> AllJitter(x, ds) && JitterUncut(x)
    ensures |Collected(x, ds)| == |x.deltas| ==> Collected(x, ds) == x.deltas
  {
    var arrived := JitterArrived(PlanOf(x), ds);
    AscendingPicks(arrived, |DeltaPieces(x)|);
    if JitterUncut(x) {
      UncutPieces(x);
      DeltaPiecesCover(x);
      SelectionFullIff(DeltaPieces(x), Ascending(arrived));
      assert forall j: u32 :: j < |PlanOf(x).jitter| ==> (j in Ascending(arrived) <==> JitterCopy(j) in ds);
    } else {
      CutIsNotFull(x, Ascending(arrived));
    }
  }

  /** The deltas that the collector decodes are the chunks that arrived, as the
      receive cut them, in index order. */
  lemma JitterSelection(x: Session, t0: Trial, t: Trial, ds: seq<Delivery>)
    requires x.Valid() && Holds(PlanOf(x), t0, t, ds)
    ensures JitterValues(t.jitter) == Collected(x, ds)
  {
    var keys := JitterArrived(PlanOf(x), ds);
    AscendingPicks(keys, |DeltaPieces(x)|);
    forall i | 0 <= i < |Ascending(keys)|
      ensures Ascending(keys)[i] in t.jitter
    {
      assert Ascending(keys)[i] in Ascending(keys);
    }
    ValuesAreSelected(DeltaPieces(x), KeptPieces(x), t.jitter, Ascending(keys));
  }

  lemma ResponseEqualIff(raw: seq<byte>, a: seq<u32>, b: seq<u32>)
    ensures ResponseInput(raw, a) == ResponseInput(raw, b) <==> a == b
  {
    if ResponseInput(raw, a) == ResponseInput(raw, b) {
      assert PackLe32(a) == ResponseInput(raw, a)[|raw|..] == ResponseInput(raw, b)[|raw|..] == PackLe32(b);
      UnpackOfPack(a);
      UnpackOfPack(b);
    }
  }

  // ---- the main theorems ----

  /** A run in which the upload's messages, in any order and number, reach a
      collector whose trial is fresh, and which is still running after them. */
  ghost predicate Scenario(cfg: Config, x: Session, s: State, ds: seq<Delivery>, before: State) {
    && cfg.Sound() && x.Valid() && x.key in s.states && Fresh(s.states[x.key])
    && (forall d :: d in ds ==> Admissible(cfg, PlanOf(x), d))
    && before == Run(cfg, s, EventsOf(cfg, PlanOf(x), ds)) && Live(cfg, before)
  }

  /** When RAW_END reaches a collector that is still running and does not raise,
      the trial is filed: complete iff the buffer is nonempty, every raw chunk
      arrived and chunks fit the receive buffer, whether or not RAW_BEGIN
      arrived; the row counts the raw chunks that arrived and copies the noted
      result line; a complete row holds the device's buffer, and its response file
      is the string the device hashed iff every jitter chunk arrived uncut. */
  lemma LossyUpload(cfg: Config, x: Session, s: State, ds: seq<Delivery>, before: State)
    requires Scenario(cfg, x, s, ds, before) && !AfterEnd(cfg, PlanOf(x), before).status.Crashed?
    ensures
      var after := AfterEnd(cfg, PlanOf(x), before);
      && x.key !in after.states
      && |after.rows| == |before.rows| + 1 && before.rows <= after.rows
      && var row := after.rows[|before.rows|];
      && row.key == x.key && row.captureId == s.states[x.key].captureId
      && x.key in before.states && row.reported == before.states[x.key].result
      && row.chunksSeen == |RawArrived(PlanOf(x), ds)|
      && (row.complete <==> |x.raw| > 0 && AllRaw(x, ds) && Min(x.chunk, |x.raw|) <= PAYLOAD_LIMIT)
      && (row.complete ==> row.raw == x.raw && after.completed == before.completed + 1
                           && row.response == ResponseInput(x.raw, row.jitters))
      && row.jitters == Collected(x, ds)
      && (|row.jitters| == |x.deltas| <==> AllJitter(x, ds) && JitterUncut(x))
      && (row.complete ==>
            (row.response == ResponseInput(x.raw, x.deltas) <==> AllJitter(x, ds) && JitterUncut(x)))
  {
    var p := PlanOf(x);
    UploadOutcome(cfg, p, s, ds, before);
    var t := AtFiling(p, before);
    assert |t.raw| == |t.raw.Keys|;
    CompleteIff(x, s.states[x.key], t, ds);
    JitterSelection(x, s.states[x.key], t, ds);
    CollectedFullIff(x, ds);
    ResponseEqualIff(x.raw, Collected(x, ds), x.deltas);
  }

  /** And it raises, ending the program, iff a delivered delta is out of the
      signed 32-bit range around the interval or the reported interval is not a
      number. */
  lemma UploadRaisesIff(cfg: Config, x: Session, s: State, ds: seq<Delivery>, before: State)
    requires Scenario(cfg, x, s, ds, before)
    ensures x.key in before.states
    ensures AfterEnd(cfg, PlanOf(x), before).status.Crashed?
      <==> Collected(x, ds) != [] && Unpackable(cfg, before.states[x.key], Collected(x, ds))
  {
    var p := PlanOf(x);
    UploadOutcome(cfg, p, s, ds, before);
    var t := AtFiling(p, before);
    JitterSelection(x, s.states[x.key], t, ds);
  }

  /** Once the first RAW_END has filed the trial, the rest of the upload's copies
      may arrive in any number and order: the row stays as it is and remains the
      only one. */
  lemma UploadSettles(cfg: Config, x: Session, s: State, ds: seq<Delivery>, before: State, late: seq<Event>)
    requires Scenario(cfg, x, s, ds, before) && !AfterEnd(cfg, PlanOf(x), before).status.Crashed?
    requires forall k :: 0 <= k < |late| ==> LateEvent(cfg, PlanOf(x), late[k])
    ensures
      var after := AfterEnd(cfg, PlanOf(x), before);
      StaysGone(after, Run(cfg, after, late), x.key)
  {
    LossyUpload(cfg, x, s, ds, before);
    LateCopiesChangeNothing(cfg, PlanOf(x), AfterEnd(cfg, PlanOf(x), before), late);
  }

  /** Device and host agree: when every chunk arrived at least once, in any order
      and among any other traffic, and the deltas lie in the signed 32-bit range
      around the interval, the trial is filed complete and its response file is
      the string that the device hashed. */
  lemma AllArrivedAgrees(cfg: Config, x: Session, s: State, ds: seq<Delivery>, before: State)
    requires Scenario(cfg, x, s, ds, before) && AllRaw(x, ds) && AllJitter(x, ds)
    requires |x.raw| > 0 && Min(x.chunk, |x.raw|) <= PAYLOAD_LIMIT && JitterUncut(x)
    requires x.key in before.states && (x.deltas != [] ==> !Unpackable(cfg, before.states[x.key], x.deltas))
    ensures
      var after := AfterEnd(cfg, PlanOf(x), before);
      && !after.status.Crashed? && |after.rows| == |before.rows| + 1
      && var row := after.rows[|before.rows|];
      && row.complete && row.raw == x.raw && row.jitters == x.deltas
      && row.response == ResponseInput(x.raw, x.deltas)
  {
    CollectedFullIff(x, ds);
    UploadRaisesIff(cfg, x, s, ds, before);
    LossyUpload(cfg, x, s, ds, before);
  }

  /** The match column: when the device's own digest of its response was
      reported and the two strings at hand do not collide, a complete row's
      response matches iff no jitter chunk was lost or cut. */
  lemma MatchIff(cfg: Config, x: Session, s: State, ds: seq<Delivery>, before: State)
    requires Scenario(cfg, x, s, ds, before) && !AfterEnd(cfg, PlanOf(x), before).status.Crashed?
    requires x.key in before.states
    requires
      var reported := Get(before.states[x.key].result, "response_sha256", "");
      reported != "" && reported == cfg.sha256(ResponseInput(x.raw, x.deltas))
    requires
      var stored := ResponseInput(x.raw, Collected(x, ds));
      cfg.sha256(stored) == cfg.sha256(ResponseInput(x.raw, x.deltas)) ==> stored == ResponseInput(x.raw, x.deltas)
    ensures
      var after := AfterEnd(cfg, PlanOf(x), before);
      && |after.rows| == |before.rows| + 1
      && var row := after.rows[|before.rows|];
      row.complete ==> (row.responseDigest.matches == Some(true) <==> AllJitter(x, ds) && JitterUncut(x))
  {
    UploadOutcome(cfg, PlanOf(x), s, ds, before);
    LossyUpload(cfg, x, s, ds, before);
    CompleteIff(x, s.states[x.key], AtFiling(PlanOf(x), before), ds);
  }

  /** The raw match column: with the device's digest of its buffer reported, the
      digest of a complete row is that digest, and it matches. */
  lemma RawMatches(cfg: Config, x: Session, s: State, ds: seq<Delivery>, before: State)
    requires Scenario(cfg, x, s, ds, before) && !AfterEnd(cfg, PlanOf(x), before).status.Crashed?
    requires x.key in before.states
    requires
      var said := before.states[x.key].result;
      "raw_sha256" in said && said["raw_sha256"] == cfg.sha256(x.raw) && cfg.sha256(x.raw) != ""
    ensures
      var after := AfterEnd(cfg, PlanOf(x), before);
      && |after.rows| == |before.rows| + 1
      && var row := after.rows[|before.rows|];
      row.complete ==> row.rawDigest == Digest(cfg.sha256(x.raw), Some(true))
  {
    UploadColumns(cfg, PlanOf(x), s, ds, before);
    LossyUpload(cfg, x, s, ds, before);
  }

  lemma PackEqualIff(a: seq<u32>, b: seq<u32>)
    ensures PackLe32(a) == PackLe32(b) <==> a == b
  {
    UnpackOfPack(a);
    UnpackOfPack(b);
  }

  /** The jitter match column: with the device's digest of its deltas reported and
      no collision of the two strings at hand, the row's deltas match iff no
      jitter chunk was lost or cut. A row without deltas has neither column. */
  lemma JitterMatchIff(cfg: Config, x: Session, s: State, ds: seq<Delivery>, before: State)
    requires Scenario(cfg, x, s, ds, before) && !AfterEnd(cfg, PlanOf(x), before).status.Crashed?
    requires x.key in before.states
    requires
      var said := before.states[x.key].result;
      && "jitter_sha256" in said && said["jitter_sha256"] == cfg.sha256(PackLe32(x.deltas))
      && cfg.sha256(PackLe32(x.deltas)) != ""
    requires
      var stored := PackLe32(Collected(x, ds));
      cfg.sha256(stored) == cfg.sha256(PackLe32(x.deltas)) ==> stored == PackLe32(x.deltas)
    ensures
      var after := AfterEnd(cfg, PlanOf(x), before);
      && |after.rows| == |before.rows| + 1
      && var row := after.rows[|before.rows|];
      && (x.deltas == [] ==> row.jitterDigest == Digest("", None))
      && (x.deltas != [] ==> (row.jitterDigest.matches == Some(true) <==> AllJitter(x, ds) && JitterUncut(x)))
  {
    UploadColumns(cfg, PlanOf(x), s, ds, before);
    LossyUpload(cfg, x, s, ds, before);
    CollectedFullIff(x, ds);
    PackEqualIff(Collected(x, ds), x.deltas);
    if x.deltas == [] {
      NothingCollected(x, ds);
    }
  }

  lemma NothingCollected(x: Session, ds: seq<Delivery>)
    requires x.Valid() && x.deltas == []
    ensures Collected(x, ds) == []
  {
    DeltaPiecesCover(x);
    if DeltaPieces(x) != [] {
      FlattenNonempty(DeltaPieces(x));
    }
    assert |KeptPieces(x)| == 0;
  }

  lemma FlattenNonempty(pieces: seq<seq<u32>>)
    requires pieces != [] && pieces[|pieces| - 1] != []
    ensures Flatten(pieces) != []
  {
  }

  /** With an interval reported, the residual file of a row with deltas is taken
      against that interval. */
  lemma IntervalNoted(cfg: Config, x: Session, s: State, ds: seq<Delivery>, before: State, us: int)
    requires Scenario(cfg, x, s, ds, before) && !AfterEnd(cfg, PlanOf(x), before).status.Crashed?
    requires x.key in before.states
    requires
      var said := before.states[x.key].result;
      "interval_us" in said && said["interval_us"] != "" && cfg.ToInt(said["interval_us"]) == Some(us)
    ensures
      var after := AfterEnd(cfg, PlanOf(x), before);
      && |after.rows| == |before.rows| + 1
      && var row := after.rows[|before.rows|];
      row.jitters != [] ==> row.intervalUs == us && ResidualFile(row)
  {
    UploadColumns(cfg, PlanOf(x), s, ds, before);
  }
}
