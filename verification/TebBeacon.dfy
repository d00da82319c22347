/** The development server for the Ed25519 profile: its serve loop, whose sequence
    number is an unbounded Python integer packed into 32 bits. */
module TebBeacon {
  import opened Bytes
  import opened TebCodec
  import opened TebClient

  const BEACON_RECV_LIMIT := 2048

  /** A capsule that was sent, and the hello it answers. */
  datatype Answer = Answer(hello: seq<byte>, capsule: Capsule, wire: seq<byte>)

  datatype Beacon = Beacon(sequence: nat, sent: seq<Answer>)

  /** A datagram, the clock, 32 random bytes, and the signing randomness. */
  datatype Request = Request(wire: seq<byte>, timeMs: u64, beacon: hash32, coins: nat)

  // ---- the loop body ----

  function CapsuleFor(c: Crypto, buf: seq<byte>, f: HelloFields, r: Request, sequence: u32): Capsule {
    Capsule(f.deviceId, f.counter, r.timeMs, sequence, r.beacon, c.hash(buf))
  }

  /** sign_message and the size checks behind it; None when either raises. */
  function Signature(c: Crypto, capsule: Capsule, coins: nat): Option<seq<byte>>
    requires |capsule.body| == Ed25519.BodyLen()
  {
    var s := c.sign(EncodeSigned(Ed25519, capsule), coins);
    if s.Some? && |s.value| == Ed25519.SignatureLen() then s else None
  }

  /** build_capsule; None when it raises, as it does on a sequence number that
      does not fit 32 bits. */
  function Build(c: Crypto, buf: seq<byte>, f: HelloFields, r: Request, sequence: nat): Option<Answer> {
    if sequence >= U32_LIMIT then None
    else
      var capsule := CapsuleFor(c, buf, f, r, sequence);
      var signature := Signature(c, capsule, r.coins);
      if signature.None? then None
      else Some(Answer(buf, capsule, EncodeSigned(Ed25519, capsule) + signature.value))
  }

  /** One turn. The number advances before the capsule is built, so it does even
      when building raises and the exception is logged. */
  function BeaconStep(c: Crypto, s: Beacon, r: Request): Beacon {
    var buf := Truncated(r.wire, BEACON_RECV_LIMIT);
    match ParseHelloEd(buf)
    case Err(_) => s
    case Ok((_, f)) =>
      var built := Build(c, buf, f, r, s.sequence + 1);
      Beacon(s.sequence + 1, if built.None? then s.sent else s.sent + [built.value])
  }

  /** The process: a counter, and what it has sent. */
  class BeaconServer {
    const crypto: Crypto
    var sequence: nat
    var sent: seq<Answer>

    constructor (crypto: Crypto)
      ensures this.crypto == crypto && Value() == Beacon(0, [])
    {
      this.crypto := crypto;
      sequence, sent := 0, [];
    }

    function Value(): Beacon
      reads this
    {
      Beacon(sequence, sent)
    }

    method Serve(r: Request)
      modifies this
      ensures Value() == BeaconStep(crypto, old(Value()), r)
    {
      var data := Truncated(r.wire, BEACON_RECV_LIMIT);
      var hello := ParseHelloEd(data);
      if hello.Err? {
        return;
      }
      sequence := sequence + 1;
      var built := Build(crypto, data, hello.value.1, r, sequence);
      if built.Some? {
        sent := sent + [built.value];
      }
    }
  }

  ghost function RunBeacon(c: Crypto, s: Beacon, requests: seq<Request>): Beacon
    decreases |requests|
  {
    if requests == [] then s else RunBeacon(c, BeaconStep(c, s, requests[0]), requests[1..])
  }

  // ---- every run ----

  /** Sequence numbers ascend from answer to answer, start at 1 and stay below the
      counter. */
  ghost predicate Numbered(s: Beacon) {
    && (forall i :: 0 <= i < |s.sent| ==> 1 <= s.sent[i].capsule.sequence <= s.sequence)
    && forall i, j :: 0 <= i < j < |s.sent| ==> s.sent[i].capsule.sequence < s.sent[j].capsule.sequence
  }

  lemma StepKeepsNumbered(c: Crypto, s: Beacon, r: Request)
    requires Numbered(s)
    ensures Numbered(BeaconStep(c, s, r)) && s.sequence <= BeaconStep(c, s, r).sequence <= s.sequence + 1
  {
  }

  lemma {:induction false} RunKeepsNumbered(c: Crypto, s: Beacon, requests: seq<Request>)
    requires Numbered(s)
    ensures Numbered(RunBeacon(c, s, requests))
    decreases |requests|
  {
    if requests != [] {
      StepKeepsNumbered(c, s, requests[0]);
      RunKeepsNumbered(c, BeaconStep(c, s, requests[0]), requests[1..]);
    }
  }

  /** Over every run from program start no sequence number is sent twice, without
      any bound on the number of hellos. */
  lemma SequenceNeverRepeats(c: Crypto, requests: seq<Request>, i: nat, j: nat)
    requires
      var sent := RunBeacon(c, Beacon(0, []), requests).sent;
      i < |sent| && j < |sent| && sent[i].capsule.sequence == sent[j].capsule.sequence
    ensures i == j
  {
    RunKeepsNumbered(c, Beacon(0, []), requests);
  }

  // ---- the end of the numbers ----

  /** A hello is answered iff the next number fits 32 bits and signing works. */
  lemma AnsweredIff(c: Crypto, s: Beacon, r: Request)
    requires |r.wire| <= BEACON_RECV_LIMIT && ParseHelloEd(r.wire).Ok?
    ensures |BeaconStep(c, s, r).sent| == |s.sent| + 1 <==>
      && s.sequence + 1 < U32_LIMIT
      && Signature(c, CapsuleFor(c, r.wire, ParseHelloEd(r.wire).value.1, r, s.sequence + 1), r.coins).Some?
    ensures BeaconStep(c, s, r).sequence == s.sequence + 1
  {
    assert Truncated(r.wire, BEACON_RECV_LIMIT) == r.wire;
  }

  /** Once 2^32 - 1 hellos have been counted, nothing is ever sent again. */
  lemma {:induction false} NothingMoreIsSent(c: Crypto, s: Beacon, requests: seq<Request>)
    requires s.sequence >= U32_LIMIT - 1
    ensures RunBeacon(c, s, requests).sent == s.sent
    decreases |requests|
  {
    if requests != [] {
      NothingMoreIsSent(c, BeaconStep(c, s, requests[0]), requests[1..]);
    }
  }

  /** A request that holds a hello and meets no failure but that of the number. */
  ghost predicate Serviceable(c: Crypto, r: Request) {
    && |r.wire| <= BEACON_RECV_LIMIT && ParseHelloEd(r.wire).Ok?
    && forall n: u32 :: Signature(c, CapsuleFor(c, r.wire, ParseHelloEd(r.wire).value.1, r, n), r.coins).Some?
  }

  lemma ServiceableStep(c: Crypto, s: Beacon, r: Request)
    requires Serviceable(c, r)
    ensures BeaconStep(c, s, r).sequence == s.sequence + 1
    ensures |BeaconStep(c, s, r).sent| == |s.sent| + if s.sequence + 1 < U32_LIMIT then 1 else 0
  {
    AnsweredIff(c, s, r);
  }

  /** So, however many hellos arrive, exactly the first 2^32 - 1 are answered. */
  lemma {:induction false} AnsweredInAll(c: Crypto, s: Beacon, requests: seq<Request>)
    requires forall k :: 0 <= k < |requests| ==> Serviceable(c, requests[k])
    requires |s.sent| == Min(s.sequence, U32_LIMIT - 1)
    ensures
      var n := RunBeacon(c, s, requests);
      n.sequence == s.sequence + |requests| && |n.sent| == Min(s.sequence + |requests|, U32_LIMIT - 1)
    decreases |requests|
  {
    if requests != [] {
      ServiceableStep(c, s, requests[0]);
      AnsweredInAll(c, BeaconStep(c, s, requests[0]), requests[1..]);
    }
  }

  // ---- the client's side ----

  /** What is sent for a client's hello is acceptable to that client, if the
      signature verifies. */
  lemma AnswerIsAcceptable(c: Crypto, s: Beacon, h: Hello, r: Request)
    requires r.wire == EncodeHello(Ed25519, h) && |BeaconStep(c, s, r).sent| == |s.sent| + 1
    ensures
      var a := BeaconStep(c, s, r).sent[|s.sent|];
      && a.hello == r.wire && |a.wire| == Ed25519.CapsuleLen()
      && (c.verify(a.wire[..Ed25519.SignedLen()], a.wire[Ed25519.SignedLen()..]) ==>
            Acceptable(c, Ed25519, r.wire, h.deviceId, h.bootCounter, a.wire))
  {
    ServerReadsHello(h);
    assert Truncated(r.wire, BEACON_RECV_LIMIT) == r.wire;
    var a := BeaconStep(c, s, r).sent[|s.sent|];
    ClientReadsCapsule(Ed25519, a.capsule, Signature(c, a.capsule, r.coins).value);
  }
}
