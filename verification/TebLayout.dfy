/** The two messages of the capsule bootstrap byte by byte, and what acceptance
    reads from them. */
module TebLayout {
  import opened Bytes
  import opened TebCodec
  import opened TebClient
  import opened TebNetwork
  import opened TebBeacon

  /** The version, the profile's number and the 16-bit field, behind the magic. */
  lemma PreambleIs(magic: seq<byte>, p: Profile, field: u16)
    requires |magic| == 4
    ensures Preamble(magic, p, field)
         == magic + [1, if p.Ed25519? then 1 else 2, field / 256, field % 256]
  {
    BeBytes(field);
  }

  lemma HelloNumbersAt(buf: seq<byte>, h: Hello)
    requires |buf| == 88 && buf[8..24] == HelloNumbers(h)
    ensures buf[8..16] == Be(8, h.deviceId) && buf[16..20] == Be(4, h.bootCounter) && buf[20..24] == Be(4, h.uptimeMs)
  {
    HelloNumbersSlices(h);
    SliceOfSlice(buf, 8, 24, 0, 8);
    SliceOfSlice(buf, 8, 24, 8, 12);
    SliceOfSlice(buf, 8, 24, 12, 16);
  }

  /** The hello of either profile. */
  lemma HelloLayout(p: Profile, h: Hello)
    ensures
      var buf := EncodeHello(p, h);
      && |buf| == 88 && buf[0..8] == [0x54, 0x45, 0x42, 0x48, 1, if p.Ed25519? then 1 else 2, 0, 0]
      && buf[8..16] == Be(8, h.deviceId) && buf[16..20] == Be(4, h.bootCounter) && buf[20..24] == Be(4, h.uptimeMs)
      && buf[24..56] == h.sram && buf[56..88] == h.timing
  {
    var buf := EncodeHello(p, h);
    FourParts(Preamble(HELLO_MAGIC, p, 0), HelloNumbers(h), h.sram, h.timing);
    PreambleIs(HELLO_MAGIC, p, 0);
    assert buf[0..8] == Preamble(HELLO_MAGIC, p, 0) && buf[8..24] == HelloNumbers(h);
    HelloNumbersAt(buf, h);
    assert buf[56..88] == buf[56..];
  }

  /** "TEBC", version, profile, and the length of the signed part: 96 or 832. */
  function CapsuleStart(p: Profile): (s: seq<byte>)
    ensures |s| == 8
  {
    if p.Ed25519? then [0x54, 0x45, 0x42, 0x43, 1, 1, 0, 96] else [0x54, 0x45, 0x42, 0x43, 1, 2, 3, 64]
  }

  lemma CapsuleStartIs(p: Profile)
    ensures Preamble(CAPSULE_MAGIC, p, p.SignedLen()) == CapsuleStart(p)
  {
    PreambleIs(CAPSULE_MAGIC, p, p.SignedLen());
  }

  /** The client parses exactly the buffers of a capsule's length that start so. */
  lemma ParsesIff(p: Profile, buf: seq<byte>)
    ensures ParseCapsule(p, buf).Ok? <==>
      |buf| == (if p.Ed25519? then 160 else 3252) && buf[0..8] == CapsuleStart(p)
  {
    CapsuleStartIs(p);
    if ParseCapsule(p, buf).Ok? {
      PreambleFrom(buf, CAPSULE_MAGIC, p, p.SignedLen());
    } else if |buf| == p.CapsuleLen() && buf[0..8] == CapsuleStart(p) {
      PreambleAt(buf, CAPSULE_MAGIC, p, p.SignedLen());
      LoadsInvert(p.SignedLen(), 0, 0);
    }
  }

  /** Where the fields of a capsule are. */
  lemma FieldsAt(p: Profile, buf: seq<byte>)
    requires ParseCapsule(p, buf).Ok?
    ensures
      var f, n := ParseCapsule(p, buf).value, if p.Ed25519? then 64 else 800;
      && Be(8, f.deviceId) == buf[8..16] && Be(4, f.bootCounter) == buf[16..20]
      && Be(8, f.timeMs) == buf[20..28] && Be(4, f.sequence) == buf[28..32]
      && f.body == buf[32..n] && f.helloHash == buf[n..n + 32]
  {
    BeOfFromBe(buf[8..16]);
    BeOfFromBe(buf[16..20]);
    BeOfFromBe(buf[20..28]);
    BeOfFromBe(buf[28..32]);
  }

  lemma SameNumbers(a: u64, b: u64, x: u32, y: u32)
    ensures Be(8, a) == Be(8, b) <==> a == b
    ensures Be(4, x) == Be(4, y) <==> x == y
  {
    LoadsInvert(0, x, a);
    LoadsInvert(0, y, b);
  }

  /** Acceptance by the bytes: the capsule starts as one of this profile, carries
      this device, this boot and the hash of this hello, and the rest is a valid
      signature of all that. */
  lemma AcceptableIff(c: Crypto, p: Profile, hello: seq<byte>, id: u64, counter: u32, s: seq<byte>)
    ensures Acceptable(c, p, hello, id, counter, s) <==>
      var n := if p.Ed25519? then 64 else 800;
      && |s| == (if p.Ed25519? then 160 else 3252) && s[0..8] == CapsuleStart(p)
      && s[8..16] == Be(8, id) && s[16..20] == Be(4, counter) && s[n..n + 32] == c.hash(hello)
      && c.verify(s[..n + 32], s[n + 32..])
  {
    ParsesIff(p, s);
    if ParseCapsule(p, s).Ok? {
      FieldsAt(p, s);
      var f := ParseCapsule(p, s).value;
      SameNumbers(f.deviceId, id, f.bootCounter, counter);
    }
  }

  /** The layout of what either server signs. */
  lemma SignedLayout(p: Profile, f: Capsule)
    requires |f.body| == if p.Ed25519? then 32 else 768
    ensures
      var buf, n := EncodeSigned(p, f), if p.Ed25519? then 64 else 800;
      && |buf| == n + 32 && buf[0..8] == CapsuleStart(p)
      && buf[8..16] == Be(8, f.deviceId) && buf[16..20] == Be(4, f.bootCounter)
      && buf[20..28] == Be(8, f.timeMs) && buf[28..32] == Be(4, f.sequence)
      && buf[32..n] == f.body && buf[n..n + 32] == f.helloHash
  {
    var signed, signature := EncodeSigned(p, f), seq(p.SignatureLen(), i => 0);
    var buf, n := signed + signature, if p.Ed25519? then 64 else 800;
    ClientReadsCapsule(p, f, signature);
    ParsesIff(p, buf);
    FieldsAt(p, buf);
    assert buf[0..8] == signed[0..8] && buf[8..16] == signed[8..16] && buf[16..20] == signed[16..20];
    assert buf[20..28] == signed[20..28] && buf[28..32] == signed[28..32];
    assert buf[32..n] == signed[32..n] && buf[n..n + 32] == signed[n..n + 32];
  }

  lemma PqStart(buf: seq<byte>)
    requires |buf| == 88
    ensures ParseHelloPq(buf).Ok? <==> buf[0..8] == Preamble(HELLO_MAGIC, Pq, 0)
  {
    if ParseHelloPq(buf).Ok? {
      PreambleFrom(buf, HELLO_MAGIC, Pq, 0);
    } else if buf[0..8] == Preamble(HELLO_MAGIC, Pq, 0) {
      PreambleAt(buf, HELLO_MAGIC, Pq, 0);
      LoadsInvert(0, 0, 0);
    }
  }

  lemma EdStart(buf: seq<byte>)
    requires |buf| == 88
    ensures ParseHelloEd(buf).Ok? <==> buf[0..6] == [0x54, 0x45, 0x42, 0x48, 1, 1]
  {
    assert buf[0..6] == buf[..4] + [buf[4], buf[5]];
    if buf[0..6] == [0x54, 0x45, 0x42, 0x48, 1, 1] {
      assert buf[..4] == buf[0..6][..4] && buf[4] == buf[0..6][4] && buf[5] == buf[0..6][5];
    }
  }

  /** What the servers parse: 88 bytes that start as a hello of their profile; the
      Python server does not look at the last two of the eight. */
  lemma HelloParsesIff(buf: seq<byte>)
    ensures ParseHelloPq(buf).Ok? <==> |buf| == 88 && buf[0..8] == [0x54, 0x45, 0x42, 0x48, 1, 2, 0, 0]
    ensures ParseHelloEd(buf).Ok? <==> |buf| == 88 && buf[0..6] == [0x54, 0x45, 0x42, 0x48, 1, 1]
  {
    if |buf| == 88 {
      PreambleIs(HELLO_MAGIC, Pq, 0);
      PqStart(buf);
      EdStart(buf);
    }
  }

  // ---- what is sent for a client's hello ----

  /** The PQ server's next entry, and so what Handle sends: this device, this boot,
      the clock, the next number, the ciphertext, the hash of the hello. */
  lemma ServedLayout(c: Crypto, s: Server, h: Hello, timeMs: u64, coins: nat)
    requires LibrariesWork(c, s, h, timeMs, coins)
    ensures
      var served := ServeStep(c, s, EncodeHello(Pq, h), timeMs, coins).served;
      && |served| == |s.served| + 1 && served[..|s.served|] == s.served
      && var e := served[|s.served|];
      && var buf := EncodeSigned(Pq, e.capsule);
      && e.hello == EncodeHello(Pq, h) && |buf| == 832
      && buf[8..16] == Be(8, h.deviceId) && buf[16..20] == Be(4, h.bootCounter)
      && buf[20..28] == Be(8, timeMs) && buf[28..32] == Be(4, (s.sequence + 1) % 0x1_0000_0000)
      && buf[32..800] == c.encaps(coins).value.0 && e.secret == c.encaps(coins).value.1
      && buf[800..832] == c.hash(EncodeHello(Pq, h))
  {
    HelloIsServed(c, s, h, timeMs, coins);
    SignedLayout(Pq, BuiltFor(c, s, h, timeMs, coins));
  }

  /** The same for the Python server, with its beacon. */
  lemma AnswerLayout(c: Crypto, s: Beacon, h: Hello, r: Request)
    requires r.wire == EncodeHello(Ed25519, h) && |BeaconStep(c, s, r).sent| == |s.sent| + 1
    ensures
      var a := BeaconStep(c, s, r).sent[|s.sent|];
      var signed := a.wire[..96];
      && |a.wire| == 160 && a.wire[0..8] == CapsuleStart(Ed25519)
      && a.wire[8..16] == Be(8, h.deviceId) && a.wire[16..20] == Be(4, h.bootCounter)
      && a.wire[20..28] == Be(8, r.timeMs) && a.wire[28..32] == Be(4, s.sequence + 1)
      && a.wire[32..64] == r.beacon && a.wire[64..96] == c.hash(r.wire)
      && c.sign(signed, r.coins) == Some(a.wire[96..])
  {
    ServerReadsHello(h);
    assert Truncated(r.wire, BEACON_RECV_LIMIT) == r.wire;
    var a := BeaconStep(c, s, r).sent[|s.sent|];
    SignedLayout(Ed25519, a.capsule);
    SliceSigned(a.wire, EncodeSigned(Ed25519, a.capsule), Signature(c, a.capsule, r.coins).value);
  }

  lemma SliceSigned(wire: seq<byte>, signed: seq<byte>, signature: seq<byte>)
    requires wire == signed + signature && |signed| == 96
    ensures wire[..96] == signed && wire[96..] == signature
    ensures forall i, j :: 0 <= i <= j <= 96 ==> wire[i..j] == signed[i..j]
  {
  }

  // ---- the client's boot ----

  /** main's hello: this device and boot, and the two commitments, SRAM first. */
  lemma BootHello(id: u64, counter: u32, uptimeMs: u32, puf: Puf, reaches: bool)
    ensures
      var b := NewBoot(id, counter, uptimeMs, puf, reaches);
      var buf := EncodeHello(Pq, b.hello);
      && buf[8..16] == Be(8, id) && buf[16..20] == Be(4, counter) && buf[20..24] == Be(4, uptimeMs)
      && buf[24..56] == puf.sramCommitment && buf[56..88] == puf.timingCommitment
      && b.puf == puf && b.credits == [] && (b.phase.Waiting? <==> reaches)
  {
    HelloLayout(Pq, NewBoot(id, counter, uptimeMs, puf, reaches).hello);
  }

  /** A waiting boot becomes ready iff the one datagram it receives has a capsule
      acceptable for its hello as its first 3252 bytes and every library call
      succeeds; it waits no longer in any case. */
  lemma ReadyIff(c: Crypto, b: Boot, wire: Option<seq<byte>>, x: Faults)
    requires b.phase.Waiting?
    ensures
      var n := ReceiveStep(c, b, wire, x);
      && n.hello == b.hello && n.puf == b.puf && !n.phase.Waiting?
      && (n.phase.Ready? <==>
            && wire.Some? && |wire.value| >= 3252
            && Acceptable(c, Pq, EncodeHello(Pq, b.hello), b.hello.deviceId, b.hello.bootCounter, wire.value[..3252])
            && x.hello == 0 && x.verify == 0 && x.decaps == 0 && x.body == 0 && x.hkdf == 0 && x.add == 0)
      && (n.phase.Ready? ==> n.phase.capsule == wire.value[..3252])
  {
    if wire.Some? && |wire.value| == 3252 {
      assert wire.value[..3252] == wire.value;
    }
  }
}
