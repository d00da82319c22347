/** Server, device and network together, for the post-quantum profile: any run of
    serving, resets and deliveries of any datagrams. */
module TebNetwork {
  import opened Bytes
  import opened TebCodec
  import opened TebClient

  /** One capsule that was built and sent; ordinal counts accepted hellos, and
      coins are the randomness of its encapsulation. */
  datatype Served = Served(ordinal: nat, hello: seq<byte>, capsule: Capsule, coins: nat, secret: hash32)

  datatype Server = Server(sequence: u32, accepted: nat, served: seq<Served>)

  datatype Phase = Waiting | Failed | Ready(capsule: seq<byte>, fields: Capsule, secret: hash32)

  datatype Boot = Boot(hello: Hello, puf: Puf, phase: Phase, credits: seq<Credit>)

  datatype System = System(server: Server, retained: Retained, boots: seq<Boot>)

  /** Reset: power-like resets replace the retained memory by anything; a boot
      reaches the capsule exchange or fails before it. Deliver: what the waiting
      boot's single receive yields, if anything. */
  datatype Event =
    | Serve(wire: seq<byte>, timeMs: u64, coins: nat)
    | Reset(noise: Option<Retained>, uptimeMs: u32, puf: Puf, reaches: bool)
    | Deliver(datagram: Option<seq<byte>>, faults: Faults)

  // ---- the server's loop body ----

  function ServeHello(c: Crypto, s: Server, buf: seq<byte>, f: HelloFields, timeMs: u64, coins: nat): Server {
    var next := s.(sequence := (s.sequence + 1) % U32_LIMIT, accepted := s.accepted + 1);
    var kem := c.encaps(coins);
    if kem.None? || |kem.value.0| != Pq.BodyLen() then next
    else
      var capsule := Capsule(f.deviceId, f.counter, timeMs, next.sequence, kem.value.0, c.hash(buf));
      var signature := c.sign(EncodeSigned(Pq, capsule), coins);
      if signature.None? || |signature.value| != Pq.SignatureLen() then next
      else next.(served := s.served + [Served(next.accepted, buf, capsule, coins, kem.value.1)])
  }

  /** recvfrom into an 88-byte buffer, parse, count, build. */
  function ServeStep(c: Crypto, s: Server, wire: seq<byte>, timeMs: u64, coins: nat): Server {
    var buf := Truncated(wire, HELLO_LEN);
    match ParseHelloPq(buf)
    case Err(_) => s
    case Ok(f) => ServeHello(c, s, buf, f, timeMs, coins)
  }

  /** recvfrom's bytes in the 88-byte buffer, parsed there. */
  method ReadHello(received: seq<byte>) returns (r: Result<HelloFields>)
    requires |received| <= HELLO_LEN
    ensures r == ParseHelloPq(received)
  {
    var buf := new byte[HELLO_LEN];
    CopyTo(buf, 0, received);
    assert buf[..0 + |received|] == buf[..|received|] == received;
    r := ParseHelloBuffer(buf, |received|);
  }

  /** The server process: a sequence counter kept across requests. */
  class PqServer {
    const crypto: Crypto
    var sequence: u32
    ghost var log: Server

    constructor (crypto: Crypto)
      ensures this.crypto == crypto && Valid() && log == Server(0, 0, [])
    {
      this.crypto := crypto;
      sequence := 0;
      log := Server(0, 0, []);
    }

    ghost predicate Valid()
      reads this
    {
      log.sequence == sequence
    }

    /** One iteration of the serve loop. What it sends is the capsule that the
        log records for this request; it sends nothing iff nothing is recorded. */
    method Handle(wire: seq<byte>, timeMs: u64, coins: nat, capsule: array<byte>) returns (send: bool)
      requires Valid() && capsule.Length == Pq.CapsuleLen()
      modifies this, capsule
      ensures Valid() && log == ServeStep(crypto, old(log), wire, timeMs, coins)
      ensures send <==> |log.served| == |old(log.served)| + 1
      ensures send ==>
        var entry := log.served[|log.served| - 1];
        var signed := EncodeSigned(Pq, entry.capsule);
        crypto.sign(signed, coins).Some? && capsule[..] == signed + crypto.sign(signed, coins).value
    {
      var buf := Truncated(wire, HELLO_LEN);
      var parsed := ReadHello(buf);
      log := ServeStep(crypto, log, wire, timeMs, coins);
      if parsed.Err? {
        return false;
      }
      sequence := (sequence + 1) % U32_LIMIT;
      var f := parsed.value;
      var kem := crypto.encaps(coins);
      var encapsOk := kem.Some? && |kem.value.0| == Pq.BodyLen();
      var body := if encapsOk then kem.value.0 else seq(768, i => 0);
      var fields := Capsule(f.deviceId, f.counter, timeMs, sequence, body, crypto.hash(buf));
      send := BuildCapsule(capsule, fields, encapsOk, msg => crypto.sign(msg, coins));
    }
  }

  // ---- the device ----

  /** What main has put together when it asks for a capsule. */
  function NewBoot(id: u64, counter: u32, uptimeMs: u32, puf: Puf, reaches: bool): Boot {
    Boot(Hello(id, counter, uptimeMs, puf.sramCommitment, puf.timingCommitment), puf,
         if reaches then Waiting else Failed, [])
  }

  /** The boot a reset starts, counted from whatever memory survived. */
  function BootOf(id: u64, s: System, e: Event): Boot
    requires e.Reset?
  {
    NewBoot(id, NextCounter(if e.noise.Some? then e.noise.value else s.retained), e.uptimeMs, e.puf, e.reaches)
  }

  function BootStep(c: Crypto, id: u64, s: System, e: Event): System
    requires e.Reset?
  {
    var b := BootOf(id, s, e);
    s.(retained := Retain(b.hello.bootCounter), boots := s.boots + [b])
  }

  /** request_capsule's receive and accept_capsule. */
  function ReceiveStep(c: Crypto, b: Boot, wire: Option<seq<byte>>, x: Faults): Boot
    requires b.phase.Waiting?
  {
    if wire.None? then b.(phase := Failed)
    else
      var buf := Truncated(wire.value, Pq.CapsuleLen());
      if |buf| != Pq.CapsuleLen()
         || !Acceptable(c, Pq, EncodeHello(Pq, b.hello), b.hello.deviceId, b.hello.bootCounter, buf)
         || !NoFaultBeforeCredit(Pq, x)
      then b.(phase := Failed)
      else
        var f := ParseCapsule(Pq, buf).value;
        var secret := c.decaps(f.body);
        b.(phase := if x.add == 0 then Ready(buf, f, secret) else Failed,
           credits := b.credits
             + [Credit(c.hkdf(b.puf.sramSecret + b.puf.timingSecret + secret, c.hash(f.body) + f.helloHash,
                              "TEB-PQ-MLKEM512-MLDSA44-v1"), CREDIT_BITS)])
  }

  /** What waits in request_capsule, and accept_capsule on what arrived. */
  method Exchange(c: Crypto, waiting: Boot, pool: EntropyPool, hello: seq<byte>, wire: Option<seq<byte>>, x: Faults)
    returns (b: Boot)
    requires waiting.phase.Waiting? && hello == EncodeHello(Pq, waiting.hello) && pool.credits == waiting.credits
    modifies pool
    ensures b == ReceiveStep(c, waiting, wire, x) && pool.credits == b.credits
  {
    if wire.None? {
      return waiting.(phase := Failed);
    }
    var buf := Truncated(wire.value, Pq.CapsuleLen());
    if |buf| != Pq.CapsuleLen() {
      return waiting.(phase := Failed);
    }
    var capsule := new byte[Pq.CapsuleLen()];
    CopyTo(capsule, 0, buf);
    assert capsule[..] == capsule[..0 + |buf|] == buf;
    var r := AcceptCapsule(c, Pq, pool, hello, waiting.hello, waiting.puf, capsule, x);
    b := waiting.(phase := if r.Ok? then Ready(buf, r.value, c.decaps(r.value.body)) else Failed,
                  credits := pool.credits);
  }

  /** main of the client: unless the entropy device is missing, count the boot
      and build the hello; then, unless something before it fails, wait for one
      capsule and accept or reject it. Without the device nothing changes. */
  method BootMain(c: Crypto, id: u64, counter: RetainedCounter, pool: EntropyPool, hello: array<byte>, ready: bool,
                  uptimeMs: u32, puf: Puf, reaches: bool, wire: Option<seq<byte>>, x: Faults)
    returns (b: Option<Boot>)
    requires hello.Length == HELLO_LEN && pool.credits == []
    modifies counter, pool, hello
    ensures !ready ==> b == None && counter.State() == old(counter.State()) && pool.credits == []
    ensures ready ==> b.Some? && counter.State() == Retain(NextCounter(old(counter.State())))
    ensures ready ==> hello[..] == EncodeHello(Pq, b.value.hello) && pool.credits == b.value.credits
    ensures ready ==>
      var b0 := NewBoot(id, NextCounter(old(counter.State())), uptimeMs, puf, reaches);
      b.value == if reaches then ReceiveStep(c, b0, wire, x) else b0
  {
    if !ready {
      return None;
    }
    var count := counter.NextBootCounter();
    var boot := NewBoot(id, count, uptimeMs, puf, reaches);
    BuildHello(hello, Pq, boot.hello);
    if reaches {
      boot := Exchange(c, boot, pool, hello[..], wire, x);
    }
    b := Some(boot);
  }

  function DeliverStep(c: Crypto, s: System, wire: Option<seq<byte>>, x: Faults): System {
    var n := |s.boots| - 1;
    if n < 0 || !s.boots[n].phase.Waiting? then s
    else s.(boots := s.boots[n := ReceiveStep(c, s.boots[n], wire, x)])
  }

  function Step(c: Crypto, id: u64, s: System, e: Event): System {
    match e
    case Serve(wire, timeMs, coins) => s.(server := ServeStep(c, s.server, wire, timeMs, coins))
    case Reset(_, _, _, _) => BootStep(c, id, s, e)
    case Deliver(wire, x) => DeliverStep(c, s, wire, x)
  }

  function Run(c: Crypto, id: u64, s: System, events: seq<Event>): System
    decreases |events|
  {
    if events == [] then s else Run(c, id, Step(c, id, s, events[0]), events[1..])
  }

  function Start(memory: Retained): System {
    System(Server(0, 0, []), memory, [])
  }

  // ---- hypotheses ----

  /** Decapsulation recovers what encapsulation produced. */
  ghost predicate KemCorrect(c: Crypto) {
    forall coins: nat :: c.encaps(coins).Some? ==> c.decaps(c.encaps(coins).value.0) == c.encaps(coins).value.1
  }

  ghost predicate Signed(s: Server, msg: seq<byte>) {
    exists i :: 0 <= i < |s.served| && EncodeSigned(Pq, s.served[i].capsule) == msg
  }

  /** No delivered datagram carries a valid signature on bytes that the server
      has not signed before. The network may otherwise drop, replay, reorder,
      alter and invent datagrams. */
  ghost predicate NoForgery(c: Crypto, s: System, e: Event) {
    e.Deliver? ==> NotForged(c, s.server, e.datagram)
  }

  ghost predicate NotForged(c: Crypto, s: Server, datagram: Option<seq<byte>>) {
    datagram.Some? ==>
      var buf := Truncated(datagram.value, Pq.CapsuleLen());
      |buf| == Pq.CapsuleLen() && c.verify(buf[..Pq.SignedLen()], buf[Pq.SignedLen()..]) ==>
        Signed(s, buf[..Pq.SignedLen()])
  }

  /** The hash of this hello is not the hash of another hello that was served. */
  ghost predicate Separates(c: Crypto, s: Server, hello: seq<byte>) {
    forall i :: 0 <= i < |s.served| ==> NoCollision(c, s.served[i].hello, hello)
  }

  /** When a capsule is delivered, the waiting boot's hello collides with no
      hello that was served so far. */
  ghost predicate NoHelloCollision(c: Crypto, s: System, e: Event) {
    e.Deliver? && s.boots != [] ==> Separates(c, s.server, EncodeHello(Pq, s.boots[|s.boots| - 1].hello))
  }

  ghost predicate HonestRun(c: Crypto, id: u64, s: System, events: seq<Event>)
    decreases |events|
  {
    events != [] ==>
      NoForgery(c, s, events[0]) && NoHelloCollision(c, s, events[0])
      && HonestRun(c, id, Step(c, id, s, events[0]), events[1..])
  }

  // ---- what every run keeps ----

  ghost predicate ServerOk(c: Crypto, s: Server) {
    && s.sequence == s.accepted % U32_LIMIT
    && (forall i :: 0 <= i < |s.served| ==> ServedOk(c, s, s.served[i]))
    && (forall i, j :: 0 <= i < j < |s.served| ==> s.served[i].ordinal < s.served[j].ordinal)
  }

  ghost predicate ServedOk(c: Crypto, s: Server, e: Served) {
    && 1 <= e.ordinal <= s.accepted && e.capsule.sequence == e.ordinal % U32_LIMIT
    && |e.hello| == HELLO_LEN && e.capsule.helloHash == c.hash(e.hello)
    && |e.capsule.body| == Pq.BodyLen() && c.encaps(e.coins) == Some((e.capsule.body, e.secret))
  }

  /** The one credit, of 128 bits: the seed derived from an acceptable capsule. */
  ghost predicate CreditedFor(c: Crypto, b: Boot, capsule: seq<byte>) {
    && Acceptable(c, Pq, EncodeHello(Pq, b.hello), b.hello.deviceId, b.hello.bootCounter, capsule)
    && var body := ParseCapsule(Pq, capsule).value.body;
    b.credits ==
      [Credit(c.hkdf(b.puf.sramSecret + b.puf.timingSecret + c.decaps(body),
                     c.hash(body) + c.hash(EncodeHello(Pq, b.hello)), "TEB-PQ-MLKEM512-MLDSA44-v1"), 128)]
  }

  /** At most one credit per boot, of 128 bits, and none before an acceptable
      capsule arrived. A boot that is ready passed every check on the capsule it
      holds, and its one credit is of the seed derived from it. */
  ghost predicate BootOk(c: Crypto, b: Boot) {
    && (b.credits == [] || exists capsule :: CreditedFor(c, b, capsule))
    && (b.phase.Waiting? ==> b.credits == [])
    && (b.phase.Ready? ==> PassedChecks(c, b))
  }

  ghost predicate PassedChecks(c: Crypto, b: Boot)
    requires b.phase.Ready?
  {
    var f := b.phase.fields;
    && |b.phase.capsule| == Pq.CapsuleLen()
    && Acceptable(c, Pq, EncodeHello(Pq, b.hello), b.hello.deviceId, b.hello.bootCounter, b.phase.capsule)
    && f == ParseCapsule(Pq, b.phase.capsule).value && b.phase.secret == c.decaps(f.body)
    && CreditedFor(c, b, b.phase.capsule)
  }

  ghost predicate BootsOk(c: Crypto, boots: seq<Boot>) {
    boots != [] ==> BootsOk(c, boots[..|boots| - 1]) && BootOk(c, boots[|boots| - 1])
  }

  ghost predicate Invariant(c: Crypto, s: System) {
    ServerOk(c, s.server) && BootsOk(c, s.boots)
  }

  lemma {:induction false} BootAt(c: Crypto, boots: seq<Boot>, b: nat)
    requires BootsOk(c, boots) && b < |boots|
    ensures BootOk(c, boots[b])
  {
    if b < |boots| - 1 {
      BootAt(c, boots[..|boots| - 1], b);
    }
  }

  lemma ServeKeepsServer(c: Crypto, s: Server, wire: seq<byte>, timeMs: u64, coins: nat)
    requires ServerOk(c, s)
    ensures ServerOk(c, ServeStep(c, s, wire, timeMs, coins))
    ensures s.served <= ServeStep(c, s, wire, timeMs, coins).served
  {
    var buf := Truncated(wire, HELLO_LEN);
    if ParseHelloPq(buf).Ok? {
      var n := ServeHello(c, s, buf, ParseHelloPq(buf).value, timeMs, coins);
      assert n.sequence == n.accepted % U32_LIMIT;
      forall i | 0 <= i < |n.served|
        ensures ServedOk(c, n, n.served[i])
      {
        if i < |s.served| {
          assert ServedOk(c, s, s.served[i]);
        }
      }
      forall i, j | 0 <= i < j < |n.served|
        ensures n.served[i].ordinal < n.served[j].ordinal
      {
        assert ServedOk(c, s, s.served[i]);
      }
    }
  }

  lemma ReceiveKeepsBoot(c: Crypto, b: Boot, wire: Option<seq<byte>>, x: Faults)
    requires b.phase.Waiting? && BootOk(c, b)
    ensures BootOk(c, ReceiveStep(c, b, wire, x))
  {
    var n := ReceiveStep(c, b, wire, x);
    if n.credits != [] {
      assert CreditedFor(c, n, Truncated(wire.value, Pq.CapsuleLen()));
    }
  }

  lemma DeliverKeepsBoots(c: Crypto, s: System, datagram: Option<seq<byte>>, x: Faults)
    requires BootsOk(c, s.boots)
    ensures BootsOk(c, DeliverStep(c, s, datagram, x).boots)
  {
    var n := |s.boots| - 1;
    if n >= 0 && s.boots[n].phase.Waiting? {
      ReceiveKeepsBoot(c, s.boots[n], datagram, x);
      var boots := DeliverStep(c, s, datagram, x).boots;
      assert boots[..n] == s.boots[..n];
    }
  }

  lemma ResetKeepsBoots(c: Crypto, id: u64, s: System, e: Event)
    requires e.Reset? && BootsOk(c, s.boots)
    ensures BootsOk(c, BootStep(c, id, s, e).boots)
  {
    var boots := BootStep(c, id, s, e).boots;
    assert boots[..|boots| - 1] == s.boots;
  }

  lemma StepKeepsInvariant(c: Crypto, id: u64, s: System, e: Event)
    requires Invariant(c, s)
    ensures Invariant(c, Step(c, id, s, e))
  {
    match e
    case Serve(wire, timeMs, coins) => ServeKeepsServer(c, s.server, wire, timeMs, coins);
    case Reset(_, _, _, _) => ResetKeepsBoots(c, id, s, e);
    case Deliver(datagram, x) => DeliverKeepsBoots(c, s, datagram, x);
  }

  /** Every run, whatever the network delivers and whatever the libraries do. */
  lemma {:induction false} RunKeepsInvariant(c: Crypto, id: u64, s: System, events: seq<Event>)
    requires Invariant(c, s)
    ensures Invariant(c, Run(c, id, s, events))
    decreases |events|
  {
    if events != [] {
      StepKeepsInvariant(c, id, s, events[0]);
      RunKeepsInvariant(c, id, Step(c, id, s, events[0]), events[1..]);
    }
  }

  /** The single credit, over every run and for every boot of it: at most one
      call, of 128 bits; and in a boot that is ready exactly one, of the seed of
      a capsule that passed all checks for this boot's hello. */
  lemma SingleCredit(c: Crypto, id: u64, memory: Retained, events: seq<Event>, b: nat)
    requires b < |Run(c, id, Start(memory), events).boots|
    ensures BootOk(c, Run(c, id, Start(memory), events).boots[b])
    ensures |Run(c, id, Start(memory), events).boots[b].credits| <= 1
  {
    RunKeepsInvariant(c, id, Start(memory), events);
    BootAt(c, Run(c, id, Start(memory), events).boots, b);
  }

  // ---- agreement, when nothing is forged ----

  /** The server built this boot's capsule, for this very hello. */
  ghost predicate Agrees(e: Served, b: Boot)
    requires b.phase.Ready?
  {
    && e.hello == EncodeHello(Pq, b.hello) && e.capsule == b.phase.fields
    && |b.phase.capsule| == Pq.CapsuleLen() && b.phase.capsule[..Pq.SignedLen()] == EncodeSigned(Pq, e.capsule)
  }

  ghost predicate BootAgrees(s: Server, b: Boot) {
    b.phase.Ready? ==> exists i :: 0 <= i < |s.served| && Agrees(s.served[i], b)
  }

  /** Two boots that accepted the same bytes had the same hello. */
  predicate Tied(a: Boot, b: Boot) {
    a.phase.Ready? && b.phase.Ready? && a.phase.capsule == b.phase.capsule ==> a.hello == b.hello
  }

  ghost predicate BootsAgree(s: Server, boots: seq<Boot>) {
    boots != [] ==>
      var n := |boots| - 1;
      && BootsAgree(s, boots[..n]) && BootAgrees(s, boots[n])
      && forall i :: 0 <= i < n ==> Tied(boots[i], boots[n])
  }

  lemma {:induction false} AgreementAt(s: Server, boots: seq<Boot>, i: nat)
    requires BootsAgree(s, boots) && i < |boots|
    ensures BootAgrees(s, boots[i])
    ensures forall k :: 0 <= k < i ==> Tied(boots[k], boots[i])
  {
    if i < |boots| - 1 {
      AgreementAt(s, boots[..|boots| - 1], i);
    }
  }

  lemma MoreServedStillAgrees(s: Server, n: Server, b: Boot)
    requires BootAgrees(s, b) && s.served <= n.served
    ensures BootAgrees(n, b)
  {
    if b.phase.Ready? {
      var i :| 0 <= i < |s.served| && Agrees(s.served[i], b);
      assert Agrees(n.served[i], b);
    }
  }

  lemma {:induction false} ServeKeepsAgreement(s: Server, n: Server, boots: seq<Boot>)
    requires BootsAgree(s, boots) && s.served <= n.served
    ensures BootsAgree(n, boots)
  {
    if boots != [] {
      ServeKeepsAgreement(s, n, boots[..|boots| - 1]);
      MoreServedStillAgrees(s, n, boots[|boots| - 1]);
    }
  }

  /** The signed bytes determine the fields. */
  lemma SignedIsInjective(a: Capsule, b: Capsule)
    requires |a.body| == |b.body| == Pq.BodyLen() && EncodeSigned(Pq, a) == EncodeSigned(Pq, b)
    ensures a == b
  {
    var signature := seq(2420, i => 0);
    ClientReadsCapsule(Pq, a, signature);
    ClientReadsCapsule(Pq, b, signature);
  }

  /** The accepted capsule is one the server signed, so it is one the server
      built, and by its hash it was built for this hello. */
  lemma ReceiveAgrees(c: Crypto, s: Server, b: Boot, wire: Option<seq<byte>>, x: Faults)
    requires ServerOk(c, s) && b.phase.Waiting? && Separates(c, s, EncodeHello(Pq, b.hello))
    requires NotForged(c, s, wire)
    ensures BootAgrees(s, ReceiveStep(c, b, wire, x))
  {
    var n := ReceiveStep(c, b, wire, x);
    if n.phase.Ready? {
      var buf := n.phase.capsule;
      AcceptedCapsuleIsEncoding(Pq, buf);
      var i :| 0 <= i < |s.served| && EncodeSigned(Pq, s.served[i].capsule) == buf[..Pq.SignedLen()];
      var e := s.served[i];
      assert ServedOk(c, s, e);
      SignedIsInjective(e.capsule, n.phase.fields);
      assert NoCollision(c, e.hello, EncodeHello(Pq, b.hello));
      assert Agrees(e, n);
    }
  }

  /** A boot that accepts bytes an earlier boot has accepted has that boot's
      hello: the earlier capsule was served before this delivery, so the
      delivery's own collision hypothesis covers it. */
  lemma SecondAcceptIsTied(c: Crypto, s: Server, a: Boot, b: Boot)
    requires ServerOk(c, s) && BootAgrees(s, a) && BootAgrees(s, b)
    requires Separates(c, s, EncodeHello(Pq, b.hello))
    ensures Tied(a, b)
  {
    if a.phase.Ready? && b.phase.Ready? && a.phase.capsule == b.phase.capsule {
      var k :| 0 <= k < |s.served| && Agrees(s.served[k], a);
      var l :| 0 <= l < |s.served| && Agrees(s.served[l], b);
      var e, f := s.served[k], s.served[l];
      assert ServedOk(c, s, e) && ServedOk(c, s, f);
      SignedIsInjective(e.capsule, f.capsule);
      assert NoCollision(c, e.hello, EncodeHello(Pq, b.hello));
      HelloReadsBack(Pq, a.hello);
      HelloReadsBack(Pq, b.hello);
    }
  }

  lemma DeliverKeepsAgreement(c: Crypto, s: System, datagram: Option<seq<byte>>, x: Faults)
    requires ServerOk(c, s.server) && BootsAgree(s.server, s.boots)
    requires NotForged(c, s.server, datagram)
    requires s.boots != [] ==> Separates(c, s.server, EncodeHello(Pq, s.boots[|s.boots| - 1].hello))
    ensures BootsAgree(s.server, DeliverStep(c, s, datagram, x).boots)
  {
    var n := |s.boots| - 1;
    if n >= 0 && s.boots[n].phase.Waiting? {
      var b := ReceiveStep(c, s.boots[n], datagram, x);
      ReceiveAgrees(c, s.server, s.boots[n], datagram, x);
      forall i | 0 <= i < n
        ensures Tied(s.boots[i], b)
      {
        AgreementAt(s.server, s.boots, i);
        SecondAcceptIsTied(c, s.server, s.boots[i], b);
      }
      assert s.boots[n := b][..n] == s.boots[..n];
    }
  }

  lemma ResetKeepsAgreement(c: Crypto, id: u64, s: System, e: Event)
    requires e.Reset? && BootsAgree(s.server, s.boots)
    ensures BootsAgree(s.server, BootStep(c, id, s, e).boots)
  {
    var boots := BootStep(c, id, s, e).boots;
    assert boots[..|boots| - 1] == s.boots;
  }

  lemma StepKeepsAgreement(c: Crypto, id: u64, s: System, e: Event)
    requires ServerOk(c, s.server) && BootsAgree(s.server, s.boots)
    requires NoForgery(c, s, e) && NoHelloCollision(c, s, e)
    ensures BootsAgree(Step(c, id, s, e).server, Step(c, id, s, e).boots)
  {
    match e
    case Serve(wire, timeMs, coins) =>
      ServeKeepsServer(c, s.server, wire, timeMs, coins);
      ServeKeepsAgreement(s.server, ServeStep(c, s.server, wire, timeMs, coins), s.boots);
    case Reset(_, _, _, _) =>
      ResetKeepsAgreement(c, id, s, e);
    case Deliver(datagram, x) =>
      DeliverKeepsAgreement(c, s, datagram, x);
  }

  lemma {:induction false} RunKeepsAgreement(c: Crypto, id: u64, s: System, events: seq<Event>)
    requires Invariant(c, s) && BootsAgree(s.server, s.boots) && HonestRun(c, id, s, events)
    ensures Invariant(c, Run(c, id, s, events))
    ensures BootsAgree(Run(c, id, s, events).server, Run(c, id, s, events).boots)
    decreases |events|
  {
    if events != [] {
      StepKeepsInvariant(c, id, s, events[0]);
      StepKeepsAgreement(c, id, s, events[0]);
      RunKeepsAgreement(c, id, Step(c, id, s, events[0]), events[1..]);
    }
  }

  /** The server's entry for a boot, with the secret that both ends hold. */
  ghost predicate SharesSecret(e: Served, b: Boot)
    requires b.phase.Ready?
  {
    Agrees(e, b) && e.secret == b.phase.secret
  }

  /** The boot's one credit is of the seed derived from the server's own secret,
      the body it sent and the hello it answered. */
  ghost predicate CreditedFrom(c: Crypto, e: Served, b: Boot) {
    b.credits ==
      [Credit(c.hkdf(b.puf.sramSecret + b.puf.timingSecret + e.secret, c.hash(e.capsule.body) + c.hash(e.hello),
                     "TEB-PQ-MLKEM512-MLDSA44-v1"), 128)]
  }

  lemma SecretsMeet(c: Crypto, s: Server, b: Boot)
    requires KemCorrect(c) && ServerOk(c, s) && BootOk(c, b) && BootAgrees(s, b) && b.phase.Ready?
    ensures exists i :: 0 <= i < |s.served| && SharesSecret(s.served[i], b) && CreditedFrom(c, s.served[i], b)
  {
    var i :| 0 <= i < |s.served| && Agrees(s.served[i], b);
    var e := s.served[i];
    assert ServedOk(c, s, e);
    assert c.encaps(e.coins).Some?;
    assert SharesSecret(s.served[i], b) && CreditedFrom(c, s.served[i], b);
  }

  /** Capsule agreement over every run: a boot that reaches capsule_ready
      accepted a capsule that the server built for its very hello, both sides
      hold the same shared secret, its pool got exactly one credit, of 128 bits for
      the seed derived from that secret, and, below 2^32 accepted hellos, the sequence number in the capsule names
      that server step and no other. */
  lemma CapsuleAgreement(c: Crypto, id: u64, memory: Retained, events: seq<Event>, b: nat)
    requires KemCorrect(c) && HonestRun(c, id, Start(memory), events)
    requires b < |Run(c, id, Start(memory), events).boots|
    requires Run(c, id, Start(memory), events).boots[b].phase.Ready?
    ensures
      var s := Run(c, id, Start(memory), events);
      var boot := s.boots[b];
      && (exists i :: 0 <= i < |s.server.served| && SharesSecret(s.server.served[i], boot)
                      && CreditedFrom(c, s.server.served[i], boot))
      && (s.server.accepted < U32_LIMIT ==> NamesOneStep(s.server, boot.phase.fields.sequence))
  {
    RunKeepsAgreement(c, id, Start(memory), events);
    var s := Run(c, id, Start(memory), events);
    BootAt(c, s.boots, b);
    AgreementAt(s.server, s.boots, b);
    SecretsMeet(c, s.server, s.boots[b]);
    if s.server.accepted < U32_LIMIT {
      forall i, j | 0 <= i < |s.server.served| && 0 <= j < |s.server.served|
        && s.server.served[i].capsule.sequence == s.server.served[j].capsule.sequence
        ensures i == j
      {
        SequenceUnique(c, s.server, i, j);
      }
    }
  }

  /** No two built capsules carry this sequence number. */
  ghost predicate NamesOneStep(s: Server, sequence: u32) {
    forall i, j | 0 <= i < |s.served| && 0 <= j < |s.served| ::
      s.served[i].capsule.sequence == sequence && s.served[j].capsule.sequence == sequence ==> i == j
  }

  lemma SequenceUnique(c: Crypto, s: Server, i: nat, j: nat)
    requires ServerOk(c, s) && s.accepted < U32_LIMIT && i < |s.served| && j < |s.served|
    requires s.served[i].capsule.sequence == s.served[j].capsule.sequence
    ensures i == j
  {
    assert ServedOk(c, s, s.served[i]) && ServedOk(c, s, s.served[j]);
  }

  /** In every run, two capsules carry the same sequence number iff the hellos that
      they answer were counted a multiple of 2^32 apart. */
  lemma SequenceRepeatsIff(c: Crypto, id: u64, memory: Retained, events: seq<Event>, i: nat, j: nat)
    requires i < |Run(c, id, Start(memory), events).server.served|
    requires j < |Run(c, id, Start(memory), events).server.served|
    ensures
      var served := Run(c, id, Start(memory), events).server.served;
      served[i].capsule.sequence == served[j].capsule.sequence
      <==> (served[i].ordinal - served[j].ordinal) % U32_LIMIT == 0
  {
    RunKeepsInvariant(c, id, Start(memory), events);
    var s := Run(c, id, Start(memory), events).server;
    assert ServedOk(c, s, s.served[i]) && ServedOk(c, s, s.served[j]);
    SameRemainderIff(s.served[i].ordinal, s.served[j].ordinal);
  }

  lemma SameRemainderIff(a: nat, b: nat)
    ensures a % U32_LIMIT == b % U32_LIMIT <==> (a - b) % U32_LIMIT == 0
  {
  }

  lemma {:induction false} TiedEitherWay(s: Server, boots: seq<Boot>, i: nat, j: nat)
    requires BootsAgree(s, boots) && i < |boots| && j < |boots|
    ensures Tied(boots[i], boots[j])
  {
    if i < j {
      AgreementAt(s, boots, j);
    } else if j < i {
      AgreementAt(s, boots, i);
      assert Tied(boots[j], boots[i]);
    }
  }

  /** Over every such run, two boots that accepted the same capsule bytes had the
      same hello, whatever resets lie between them. */
  lemma SameCapsuleSameHello(c: Crypto, id: u64, memory: Retained, events: seq<Event>, i: nat, j: nat)
    requires HonestRun(c, id, Start(memory), events)
    requires i < |Run(c, id, Start(memory), events).boots| && j < |Run(c, id, Start(memory), events).boots|
    ensures Tied(Run(c, id, Start(memory), events).boots[i], Run(c, id, Start(memory), events).boots[j])
  {
    RunKeepsAgreement(c, id, Start(memory), events);
    TiedEitherWay(Run(c, id, Start(memory), events).server, Run(c, id, Start(memory), events).boots, i, j);
  }

  // ---- which datagrams the server accepts ----

  /** The server counts a datagram exactly when its first 88 bytes are a hello:
      longer datagrams are cut by the receive and accepted as well. */
  lemma CountedIff(c: Crypto, s: Server, wire: seq<byte>, timeMs: u64, coins: nat)
    ensures ServeStep(c, s, wire, timeMs, coins).accepted == s.accepted + 1
      <==> |wire| >= HELLO_LEN && ParseHelloPq(wire[..HELLO_LEN]).Ok?
    ensures ServeStep(c, s, wire, timeMs, coins).accepted == s.accepted
      || ServeStep(c, s, wire, timeMs, coins).accepted == s.accepted + 1
  {
    if |wire| == HELLO_LEN {
      assert wire[..HELLO_LEN] == wire;
    }
  }

  /** Of the datagrams it counts, exactly those of 88 bytes are encodings of what
      it read. */
  lemma CountedIsEncodingIff(wire: seq<byte>)
    requires |wire| >= HELLO_LEN && ParseHelloPq(wire[..HELLO_LEN]).Ok?
    ensures
      var buf := wire[..HELLO_LEN];
      EncodeHello(Pq, HelloOf(ParseHelloPq(buf).value, buf)) == wire <==> |wire| == HELLO_LEN
  {
    AcceptedHelloIsEncoding(wire[..HELLO_LEN]);
    if |wire| == HELLO_LEN {
      assert wire[..HELLO_LEN] == wire;
    }
  }

  /** A datagram of 89 bytes that is no hello and yet counted. */
  lemma LongHelloCounted(c: Crypto, s: Server, timeMs: u64, coins: nat)
    ensures
      var wire := EncodeHello(Pq, Hello(1, 2, 3, seq(32, i => 0), seq(32, i => 0))) + [0];
      && |wire| == 89 && ParseHelloPq(wire).Err?
      && ServeStep(c, s, wire, timeMs, coins).accepted == s.accepted + 1
  {
    var h := Hello(1, 2, 3, seq(32, i => 0), seq(32, i => 0));
    var wire := EncodeHello(Pq, h) + [0];
    ServerReadsHello(h);
    assert wire[..HELLO_LEN] == EncodeHello(Pq, h);
    CountedIff(c, s, wire, timeMs, coins);
  }

  // ---- an undisturbed exchange succeeds ----

  /** The capsule that the server builds for a hello, when its libraries work. */
  function BuiltFor(c: Crypto, s: Server, h: Hello, timeMs: u64, coins: nat): Capsule
    requires c.encaps(coins).Some? && |c.encaps(coins).value.0| == Pq.BodyLen()
  {
    Capsule(h.deviceId, h.bootCounter, timeMs, (s.sequence + 1) % U32_LIMIT, c.encaps(coins).value.0,
            c.hash(EncodeHello(Pq, h)))
  }

  /** Encapsulation works, and the signature over these bytes verifies. */
  predicate LibrariesWork(c: Crypto, s: Server, h: Hello, timeMs: u64, coins: nat) {
    && c.encaps(coins).Some? && |c.encaps(coins).value.0| == Pq.BodyLen()
    && var signed := EncodeSigned(Pq, BuiltFor(c, s, h, timeMs, coins));
    && var signature := c.sign(signed, coins);
    && signature.Some? && |signature.value| == Pq.SignatureLen() && c.verify(signed, signature.value)
  }

  function SentFor(c: Crypto, s: Server, h: Hello, timeMs: u64, coins: nat): seq<byte>
    requires LibrariesWork(c, s, h, timeMs, coins)
  {
    var signed := EncodeSigned(Pq, BuiltFor(c, s, h, timeMs, coins));
    signed + c.sign(signed, coins).value
  }

  lemma HelloIsServed(c: Crypto, s: Server, h: Hello, timeMs: u64, coins: nat)
    requires LibrariesWork(c, s, h, timeMs, coins)
    ensures
      var hello := EncodeHello(Pq, h);
      ServeStep(c, s, hello, timeMs, coins)
      == Server((s.sequence + 1) % U32_LIMIT, s.accepted + 1,
                s.served + [Served(s.accepted + 1, hello, BuiltFor(c, s, h, timeMs, coins), coins,
                                   c.encaps(coins).value.1)])
  {
    ServerReadsHello(h);
  }

  lemma CapsuleIsAccepted(c: Crypto, s: Server, b: Boot, timeMs: u64, coins: nat, x: Faults)
    requires LibrariesWork(c, s, b.hello, timeMs, coins) && b.phase.Waiting?
    requires NoFaultBeforeCredit(Pq, x) && x.add == 0
    ensures
      var wire, f := SentFor(c, s, b.hello, timeMs, coins), BuiltFor(c, s, b.hello, timeMs, coins);
      ReceiveStep(c, b, Some(wire), x)
      == b.(phase := Ready(wire, f, c.decaps(f.body)),
            credits := b.credits
              + [Credit(c.hkdf(b.puf.sramSecret + b.puf.timingSecret + c.decaps(f.body),
                               c.hash(f.body) + f.helloHash, "TEB-PQ-MLKEM512-MLDSA44-v1"), CREDIT_BITS)])
  {
    var f := BuiltFor(c, s, b.hello, timeMs, coins);
    var signed := EncodeSigned(Pq, f);
    var wire := signed + c.sign(signed, coins).value;
    ClientReadsCapsule(Pq, f, c.sign(signed, coins).value);
    assert wire[..Pq.SignedLen()] == signed && wire[Pq.SignedLen()..] == c.sign(signed, coins).value;
    assert Truncated(wire, Pq.CapsuleLen()) == wire;
  }

  /** The boot after the last of s is ready with this capsule, was given one
      credit, and shares its secret with the server's next entry. */
  ghost predicate ReadyWith(s: System, n: System, wire: seq<byte>) {
    && |n.boots| == |s.boots| + 1 && |n.server.served| == |s.server.served| + 1
    && var boot := n.boots[|s.boots|];
    && boot.phase.Ready? && boot.phase.capsule == wire && |boot.credits| == 1
    && boot.phase.secret == n.server.served[|s.server.served|].secret
  }

  lemma TwoSteps(c: Crypto, id: u64, s: System, e: Event, timeMs: u64, coins: nat)
    requires e.Reset? && LibrariesWork(c, s.server, BootOf(id, s, e).hello, timeMs, coins)
    ensures
      var b := BootOf(id, s, e);
      var s2 := Step(c, id, Step(c, id, s, e), Serve(EncodeHello(Pq, b.hello), timeMs, coins));
      && s2.boots == s.boots + [b] && |s2.server.served| == |s.server.served| + 1
      && s2.server.served[|s.server.served|].secret == c.encaps(coins).value.1
  {
    HelloIsServed(c, s.server, BootOf(id, s, e).hello, timeMs, coins);
  }

  lemma ThreeSteps(c: Crypto, id: u64, s: System, e: Event, timeMs: u64, coins: nat, x: Faults)
    requires KemCorrect(c) && e.Reset? && e.reaches && NoFaultBeforeCredit(Pq, x) && x.add == 0
    requires LibrariesWork(c, s.server, BootOf(id, s, e).hello, timeMs, coins)
    ensures
      var b := BootOf(id, s, e);
      var wire := SentFor(c, s.server, b.hello, timeMs, coins);
      var s2 := Step(c, id, Step(c, id, s, e), Serve(EncodeHello(Pq, b.hello), timeMs, coins));
      ReadyWith(s, Step(c, id, s2, Deliver(Some(wire), x)), wire)
  {
    var b := BootOf(id, s, e);
    TwoSteps(c, id, s, e, timeMs, coins);
    CapsuleIsAccepted(c, s.server, b, timeMs, coins, x);
  }

  lemma RunThree(c: Crypto, id: u64, s: System, e1: Event, e2: Event, e3: Event)
    ensures Run(c, id, s, [e1, e2, e3]) == Step(c, id, Step(c, id, Step(c, id, s, e1), e2), e3)
  {
    assert [e1, e2, e3][1..] == [e2, e3] && [e2, e3][1..] == [e3] && [e3][1..] == [];
    var s1, s2 := Step(c, id, s, e1), Step(c, id, Step(c, id, s, e1), e2);
    assert Run(c, id, s2, [e3]) == Run(c, id, Step(c, id, s2, e3), []);
    assert Run(c, id, s1, [e2, e3]) == Run(c, id, s2, [e3]);
  }

  /** From any state: a boot that reaches the exchange, whose hello is served and
      whose capsule is delivered, ends ready, holding the server's secret. So
      what CapsuleAgreement speaks of does happen. */
  lemma UndisturbedBootIsReady(c: Crypto, id: u64, s: System, e: Event, timeMs: u64, coins: nat, x: Faults)
    requires KemCorrect(c) && e.Reset? && e.reaches && NoFaultBeforeCredit(Pq, x) && x.add == 0
    requires LibrariesWork(c, s.server, BootOf(id, s, e).hello, timeMs, coins)
    ensures
      var h := BootOf(id, s, e).hello;
      var wire := SentFor(c, s.server, h, timeMs, coins);
      ReadyWith(s, Run(c, id, s, [e, Serve(EncodeHello(Pq, h), timeMs, coins), Deliver(Some(wire), x)]), wire)
  {
    var h := BootOf(id, s, e).hello;
    var wire := SentFor(c, s.server, h, timeMs, coins);
    ThreeSteps(c, id, s, e, timeMs, coins, x);
    RunThree(c, id, s, e, Serve(EncodeHello(Pq, h), timeMs, coins), Deliver(Some(wire), x));
  }
}
