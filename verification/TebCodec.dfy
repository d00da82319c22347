/** The hello and capsule formats of the capsule bootstrap: the client's and the
    servers' encoders and decoders, for both profiles. */
module TebCodec {
  import opened Bytes

  const TEB_VERSION: byte := 1
  const HASH_SIZE := 32
  const HELLO_LEN := 88
  const CAPSULE_HEADER_LEN := 32

  /** "TEBH" and "TEBC". */
  const HELLO_MAGIC: seq<byte> := [0x54, 0x45, 0x42, 0x48]
  const CAPSULE_MAGIC: seq<byte> := [0x54, 0x45, 0x42, 0x43]

  datatype Profile = Ed25519 | Pq
  {
    function Code(): byte { if Ed25519? then 1 else 2 }

    /** The beacon, or the ML-KEM-512 ciphertext. */
    function BodyLen(): nat { if Ed25519? then 32 else 768 }

    function SignatureLen(): nat { if Ed25519? then 64 else 2420 }

    function SignedLen(): u16 { CAPSULE_HEADER_LEN + BodyLen() + HASH_SIZE }

    function CapsuleLen(): nat { SignedLen() + SignatureLen() }
  }

  datatype Hello = Hello(deviceId: u64, bootCounter: u32, uptimeMs: u32, sram: hash32, timing: hash32)

  datatype Capsule = Capsule(
    deviceId: u64,
    bootCounter: u32,
    timeMs: u64,
    sequence: u32,
    body: seq<byte>,
    helloHash: hash32)

  // ---- formats ----

  /** Magic, version, profile and the 16-bit field of either message. */
  function Preamble(magic: seq<byte>, p: Profile, field: u16): (s: seq<byte>)
    requires |magic| == 4
    ensures |s| == 8
  {
    magic + [TEB_VERSION, p.Code()] + Be(2, field)
  }

  function HelloNumbers(h: Hello): (s: seq<byte>)
    ensures |s| == 16
  {
    Be(8, h.deviceId) + Be(4, h.bootCounter) + Be(4, h.uptimeMs)
  }

  function EncodeHello(p: Profile, h: Hello): (s: seq<byte>)
    ensures |s| == HELLO_LEN
  {
    Preamble(HELLO_MAGIC, p, 0) + HelloNumbers(h) + h.sram + h.timing
  }

  function CapsuleNumbers(c: Capsule): (s: seq<byte>)
    ensures |s| == 24
  {
    Be(8, c.deviceId) + Be(4, c.bootCounter) + Be(8, c.timeMs) + Be(4, c.sequence)
  }

  function EncodeSigned(p: Profile, c: Capsule): (s: seq<byte>)
    ensures |s| == 64 + |c.body|
  {
    Preamble(CAPSULE_MAGIC, p, p.SignedLen()) + CapsuleNumbers(c) + c.body + c.helloHash
  }

  // ---- decoders ----

  datatype Error = EMsgSize | EBadMsg | EProtoNoSupport | EAccess | EIo | Other(code: int)
  datatype Result<T> = Ok(value: T) | Err(error: Error)

  /** What the PQ server's parse_hello reads; the hash is taken by the caller. */
  datatype HelloFields = HelloFields(deviceId: u64, counter: u32, uptimeMs: u32)

  function ReadHelloNumbers(buf: seq<byte>): HelloFields
    requires |buf| == HELLO_LEN
  {
    HelloFields(LoadBe64(buf[8..16]), LoadBe32(buf[16..20]), LoadBe32(buf[20..24]))
  }

  /** parse_hello of the PQ server, in C. */
  function ParseHelloPq(buf: seq<byte>): Result<HelloFields> {
    if |buf| != HELLO_LEN then Err(EMsgSize)
    else if buf[..4] != HELLO_MAGIC then Err(EBadMsg)
    else if buf[4] != TEB_VERSION || buf[5] != Pq.Code() || LoadBe16(buf[6..8]) != 0 then Err(EProtoNoSupport)
    else Ok(ReadHelloNumbers(buf))
  }

  /** parse_hello of the Ed25519 server, in Python: it returns the flags field
      instead of checking it. */
  function ParseHelloEd(buf: seq<byte>): Result<(u16, HelloFields)> {
    if |buf| != HELLO_LEN then Err(EMsgSize)
    else if buf[..4] != HELLO_MAGIC then Err(EBadMsg)
    else if buf[4] != TEB_VERSION || buf[5] != Ed25519.Code() then Err(EProtoNoSupport)
    else Ok((LoadBe16(buf[6..8]), ReadHelloNumbers(buf)))
  }

  /** The commitments of a hello, which neither server interprets. */
  function HelloOf(f: HelloFields, buf: seq<byte>): Hello
    requires |buf| == HELLO_LEN
  {
    Hello(f.deviceId, f.counter, f.uptimeMs, buf[24..56], buf[56..88])
  }

  /** teb_parse_capsule, built for the given profile. */
  function ParseCapsule(p: Profile, buf: seq<byte>): Result<Capsule> {
    if |buf| != p.CapsuleLen() then Err(EMsgSize)
    else if buf[..4] != CAPSULE_MAGIC then Err(EBadMsg)
    else if buf[4] != TEB_VERSION || buf[5] != p.Code() then Err(EProtoNoSupport)
    else if LoadBe16(buf[6..8]) != p.SignedLen() then Err(EBadMsg)
    else Ok(Capsule(LoadBe64(buf[8..16]), LoadBe32(buf[16..20]), LoadBe64(buf[20..28]), LoadBe32(buf[28..32]),
                    buf[32..32 + p.BodyLen()], buf[32 + p.BodyLen()..p.SignedLen()]))
  }

  // ---- the codecs are inverse to each other ----

  lemma PreambleSlices(magic: seq<byte>, p: Profile, field: u16)
    requires |magic| == 4
    ensures
      var s := Preamble(magic, p, field);
      s[..4] == magic && s[4] == TEB_VERSION && s[5] == p.Code() && s[6..8] == Be(2, field)
  {
  }

  lemma HelloNumbersSlices(h: Hello)
    ensures
      var s := HelloNumbers(h);
      s[0..8] == Be(8, h.deviceId) && s[8..12] == Be(4, h.bootCounter) && s[12..16] == Be(4, h.uptimeMs)
  {
  }

  lemma CapsuleNumbersSlices(c: Capsule)
    ensures
      var s := CapsuleNumbers(c);
      && s[0..8] == Be(8, c.deviceId) && s[8..12] == Be(4, c.bootCounter)
      && s[12..20] == Be(8, c.timeMs) && s[20..24] == Be(4, c.sequence)
  {
  }

  /** Reading fixed-width fields back. */
  lemma LoadsInvert(a: u16, b: u32, c: u64)
    ensures FromBe(Be(2, a)) == a && FromBe(Be(4, b)) == b && FromBe(Be(8, c)) == c
  {
    RadixValues();
    BeRoundTrip(2, a);
    BeRoundTrip(4, b);
    BeRoundTrip(8, c);
  }

  lemma PreambleAt(buf: seq<byte>, magic: seq<byte>, p: Profile, field: u16)
    requires |magic| == 4 && |buf| >= 8 && buf[0..8] == Preamble(magic, p, field)
    ensures buf[..4] == magic && buf[4] == TEB_VERSION && buf[5] == p.Code() && buf[6..8] == Be(2, field)
  {
    PreambleSlices(magic, p, field);
    SliceOfSlice(buf, 0, 8, 0, 4);
    SliceOfSlice(buf, 0, 8, 6, 8);
    assert buf[4] == buf[0..8][4] && buf[5] == buf[0..8][5];
  }

  /** A preamble that passes the checks is the preamble. */
  lemma PreambleFrom(buf: seq<byte>, magic: seq<byte>, p: Profile, field: u16)
    requires |buf| >= 8 && buf[..4] == magic && buf[4] == TEB_VERSION && buf[5] == p.Code()
    requires LoadBe16(buf[6..8]) == field
    ensures |magic| == 4 && buf[0..8] == Preamble(magic, p, field)
  {
    BeOfFromBe(buf[6..8]);
    assert buf[0..8] == buf[..4] + [buf[4], buf[5]] + buf[6..8];
  }

  /** The server reads back what the client wrote. */
  lemma ServerReadsHello(h: Hello)
    ensures ParseHelloPq(EncodeHello(Pq, h)) == Ok(HelloFields(h.deviceId, h.bootCounter, h.uptimeMs))
    ensures ParseHelloEd(EncodeHello(Ed25519, h)) == Ok((0, HelloFields(h.deviceId, h.bootCounter, h.uptimeMs)))
  {
    HelloReadsBack(Pq, h);
    HelloReadsBack(Ed25519, h);
  }

  lemma NumbersReadBack(h: Hello, buf: seq<byte>)
    requires |buf| == HELLO_LEN && buf[8..24] == HelloNumbers(h)
    ensures ReadHelloNumbers(buf) == HelloFields(h.deviceId, h.bootCounter, h.uptimeMs)
  {
    HelloNumbersSlices(h);
    SliceOfSlice(buf, 8, 24, 0, 8);
    SliceOfSlice(buf, 8, 24, 8, 12);
    SliceOfSlice(buf, 8, 24, 12, 16);
    LoadsInvert(0, h.bootCounter, h.deviceId);
    LoadsInvert(0, h.uptimeMs, 0);
  }

  lemma FourParts(a: seq<byte>, b: seq<byte>, c: seq<byte>, d: seq<byte>)
    ensures
      var s, i, j := a + b + c + d, |a| + |b|, |a| + |b| + |c|;
      s[..|a|] == a && s[|a|..i] == b && s[i..j] == c && s[j..] == d
  {
  }

  lemma HelloReadsBack(p: Profile, h: Hello)
    ensures
      var buf := EncodeHello(p, h);
      && buf[..4] == HELLO_MAGIC && buf[4] == TEB_VERSION && buf[5] == p.Code() && LoadBe16(buf[6..8]) == 0
      && ReadHelloNumbers(buf) == HelloFields(h.deviceId, h.bootCounter, h.uptimeMs)
      && buf[24..56] == h.sram && buf[56..88] == h.timing
  {
    var buf := EncodeHello(p, h);
    FourParts(Preamble(HELLO_MAGIC, p, 0), HelloNumbers(h), h.sram, h.timing);
    assert buf[0..8] == Preamble(HELLO_MAGIC, p, 0) && buf[56..88] == buf[56..];
    PreambleAt(buf, HELLO_MAGIC, p, 0);
    LoadsInvert(0, 0, 0);
    NumbersReadBack(h, buf);
  }

  /** A hello that the PQ server accepts is the encoding of what it read. */
  lemma AcceptedHelloIsEncoding(buf: seq<byte>)
    requires ParseHelloPq(buf).Ok?
    ensures EncodeHello(Pq, HelloOf(ParseHelloPq(buf).value, buf)) == buf
  {
    PreambleFrom(buf, HELLO_MAGIC, Pq, 0);
    HelloFromParts(buf);
  }

  lemma HelloFromParts(buf: seq<byte>)
    requires |buf| == HELLO_LEN
    ensures
      var h := HelloOf(ReadHelloNumbers(buf), buf);
      HelloNumbers(h) == buf[8..24] && buf == buf[0..8] + buf[8..24] + h.sram + h.timing
  {
    BeOfFromBe(buf[8..16]);
    BeOfFromBe(buf[16..20]);
    BeOfFromBe(buf[20..24]);
    Adjoin(buf, 8, 16, 20);
    Adjoin(buf, 8, 20, 24);
    Adjoin(buf, 0, 8, 24);
    Adjoin(buf, 0, 24, 56);
    Adjoin(buf, 0, 56, 88);
  }

  /** The Python server accepts more than encodings: it accepts the encoding of
      what it read iff the flags are zero. */
  lemma AcceptedEdHelloIsEncodingIff(buf: seq<byte>)
    requires ParseHelloEd(buf).Ok?
    ensures
      var (flags, f) := ParseHelloEd(buf).value;
      EncodeHello(Ed25519, HelloOf(f, buf)) == buf <==> flags == 0
  {
    var (flags, f) := ParseHelloEd(buf).value;
    HelloFromParts(buf);
    var h := HelloOf(f, buf);
    if flags == 0 {
      PreambleFrom(buf, HELLO_MAGIC, Ed25519, 0);
    } else if EncodeHello(Ed25519, h) == buf {
      HelloReadsBack(Ed25519, h);
    }
  }

  /** A concrete hello with nonzero flags: the Python server takes it, and so the
      two servers do not agree on what a hello is. */
  lemma NonzeroFlagsAccepted()
    ensures
      var h := Hello(1, 2, 3, seq(32, i => 0), seq(32, i => 0));
      var buf := Preamble(HELLO_MAGIC, Ed25519, 1) + HelloNumbers(h) + h.sram + h.timing;
      ParseHelloEd(buf).Ok? && EncodeHello(Ed25519, h) != buf
  {
    var h := Hello(1, 2, 3, seq(32, i => 0), seq(32, i => 0));
    var buf := Preamble(HELLO_MAGIC, Ed25519, 1) + HelloNumbers(h) + h.sram + h.timing;
    assert buf[0..8] == Preamble(HELLO_MAGIC, Ed25519, 1);
    PreambleAt(buf, HELLO_MAGIC, Ed25519, 1);
    HelloReadsBack(Ed25519, h);
    LoadsInvert(1, 0, 0);
  }

  /** The client reads back what the server built, for either profile. */
  lemma ClientReadsCapsule(p: Profile, c: Capsule, signature: seq<byte>)
    requires |c.body| == p.BodyLen() && |signature| == p.SignatureLen()
    ensures ParseCapsule(p, EncodeSigned(p, c) + signature) == Ok(c)
  {
    var buf := EncodeSigned(p, c) + signature;
    var n := 32 + p.BodyLen();
    assert buf[0..8] == Preamble(CAPSULE_MAGIC, p, p.SignedLen()) && buf[8..32] == CapsuleNumbers(c);
    assert buf[32..n] == c.body && buf[n..n + 32] == c.helloHash;
    PreambleAt(buf, CAPSULE_MAGIC, p, p.SignedLen());
    CapsuleNumbersSlices(c);
    SliceOfSlice(buf, 8, 32, 0, 8);
    SliceOfSlice(buf, 8, 32, 8, 12);
    SliceOfSlice(buf, 8, 32, 12, 20);
    SliceOfSlice(buf, 8, 32, 20, 24);
    LoadsInvert(p.SignedLen(), c.bootCounter, c.deviceId);
    LoadsInvert(0, c.sequence, c.timeMs);
  }

  /** Everything the client accepts is the encoding of what it parsed, followed
      by the signature: capsules with equal fields and signature are identical. */
  lemma AcceptedCapsuleIsEncoding(p: Profile, buf: seq<byte>)
    requires ParseCapsule(p, buf).Ok?
    ensures
      var c := ParseCapsule(p, buf).value;
      |c.body| == p.BodyLen() && EncodeSigned(p, c) == buf[..p.SignedLen()]
      && buf == EncodeSigned(p, c) + buf[p.SignedLen()..]
  {
    var c := ParseCapsule(p, buf).value;
    var n := 32 + p.BodyLen();
    PreambleFrom(buf, CAPSULE_MAGIC, p, p.SignedLen());
    BeOfFromBe(buf[8..16]);
    BeOfFromBe(buf[16..20]);
    BeOfFromBe(buf[20..28]);
    BeOfFromBe(buf[28..32]);
    Adjoin(buf, 8, 16, 20);
    Adjoin(buf, 8, 20, 28);
    Adjoin(buf, 8, 28, 32);
    Adjoin(buf, 0, 8, 32);
    Adjoin(buf, 0, 32, n);
    Adjoin(buf, 0, n, n + 32);
  }

  // ---- the C encoders and decoders ----

  /** v >> (8 * n) */
  function ShrBytes(v: nat, n: nat): nat {
    if n == 0 then v else ShrBytes(v / 256, n - 1)
  }

  lemma {:induction false} BeDigit(k: nat, v: nat, i: nat)
    requires i < k
    ensures Be(k, v)[k - 1 - i] == ShrBytes(v, i) % 256
  {
    if i > 0 {
      BeDigit(k - 1, v / 256, i - 1);
    }
  }

  method StoreU16(out: array<byte>, at: nat, v: u16)
    requires at + 2 <= out.Length
    modifies out
    ensures out[..at + 2] == old(out[..at]) + Be(2, v)
  {
    BeDigit(2, v, 1);
    BeDigit(2, v, 0);
    assert ShrBytes(v / 256, 0) == v / 256;
    out[at] := v / 256 % 256;
    out[at + 1] := v % 256;
    assert Be(2, v) == [out[at], out[at + 1]];
  }

  method StoreU32(out: array<byte>, at: nat, v: u32)
    requires at + 4 <= out.Length
    modifies out
    ensures out[..at + 4] == old(out[..at]) + Be(4, v)
  {
    BeDigit(4, v, 3);
    BeDigit(4, v, 2);
    BeDigit(4, v, 1);
    BeDigit(4, v, 0);
    assert ShrBytes(v, 1) == v / 0x100;
    assert ShrBytes(v, 2) == ShrBytes(v / 0x100, 1) == v / 0x1_0000;
    assert ShrBytes(v, 3) == ShrBytes(v / 0x100, 2) == ShrBytes(v / 0x1_0000, 1) == v / 0x100_0000;
    out[at] := v / 0x100_0000 % 256;
    out[at + 1] := v / 0x1_0000 % 256;
    out[at + 2] := v / 0x100 % 256;
    out[at + 3] := v % 256;
    assert Be(4, v) == [out[at], out[at + 1], out[at + 2], out[at + 3]];
  }

  /** The loop of teb_store_u64_be, from the top byte down. */
  method StoreU64(out: array<byte>, at: nat, v: u64)
    requires at + 8 <= out.Length
    modifies out
    ensures out[..at + 8] == old(out[..at]) + Be(8, v)
  {
    var i := 7;
    while i >= 0
      invariant -1 <= i <= 7
      invariant out[..at + 7 - i] == old(out[..at]) + Be(8, v)[..7 - i]
    {
      BeDigit(8, v, i);
      out[at + 7 - i] := ShrBytes(v, i) % 256;
      assert Be(8, v)[..8 - i] == Be(8, v)[..7 - i] + [Be(8, v)[7 - i]];
      i := i - 1;
    }
    assert Be(8, v)[..8] == Be(8, v);
  }

  /** (in[0] << 8) | in[1] */
  method LoadU16(buf: array<byte>, at: nat) returns (v: u16)
    requires at + 2 <= buf.Length
    ensures v == LoadBe16(buf[at..at + 2])
  {
    ghost var s := buf[at..at + 2];
    var b0: int, b1: int := buf[at], buf[at + 1];
    v := b0 * 0x100 + b1;
    assert s[..1][..0] == [];
    assert FromBe(s[..1]) == b0;
  }

  method LoadU32(buf: array<byte>, at: nat) returns (v: u32)
    requires at + 4 <= buf.Length
    ensures v == LoadBe32(buf[at..at + 4])
  {
    ghost var s := buf[at..at + 4];
    var b0: int, b1: int, b2: int, b3: int := buf[at], buf[at + 1], buf[at + 2], buf[at + 3];
    v := b0 * 0x100_0000 + b1 * 0x1_0000 + b2 * 0x100 + b3;
    assert s[..3][..2] == s[..2] && s[..2][..1] == s[..1] && s[..1][..0] == [];
    assert FromBe(s[..1]) == b0;
    assert FromBe(s[..2]) == 0x100 * b0 + b1;
    assert FromBe(s[..3]) == 0x1_0000 * b0 + 0x100 * b1 + b2;
  }

  /** The loop of teb_load_u64_be; v << 8 never loses a set bit. */
  method LoadU64(buf: array<byte>, at: nat) returns (v: u64)
    requires at + 8 <= buf.Length
    ensures v == LoadBe64(buf[at..at + 8])
  {
    ghost var s := buf[at..at + 8];
    v := 0;
    for i := 0 to 8
      invariant v == FromBe(s[..i])
    {
      assert s[..i + 1][..i] == s[..i];
      BeOfFromBe(s[..i + 1]);
      RadixAtMost(i + 1);
      v := (v * 256 + buf[at + i]) % U64_LIMIT;
    }
    assert s[..8] == s;
  }

  method StorePreamble(out: array<byte>, magic: seq<byte>, p: Profile, field: u16)
    requires |magic| == 4 && out.Length >= 8
    modifies out
    ensures out[..8] == Preamble(magic, p, field)
  {
    CopyTo(out, 0, magic);
    assert out[..4] == magic;
    out[4] := TEB_VERSION;
    out[5] := p.Code();
    assert out[..4] == magic && out[4..6] == [TEB_VERSION, p.Code()];
    assert out[..6] == out[..4] + out[4..6];
    StoreU16(out, 6, field);
  }

  method StoreHelloNumbers(out: array<byte>, h: Hello)
    requires out.Length >= 24
    modifies out
    ensures out[..24] == old(out[..8]) + HelloNumbers(h)
  {
    ghost var front := out[..8];
    StoreU64(out, 8, h.deviceId);
    assert out[..16] == front + Be(8, h.deviceId);
    StoreU32(out, 16, h.bootCounter);
    StoreU32(out, 20, h.uptimeMs);
  }

  /** teb_build_hello */
  method BuildHello(out: array<byte>, p: Profile, h: Hello)
    requires out.Length == HELLO_LEN
    modifies out
    ensures out[..] == EncodeHello(p, h)
  {
    Zero(out, HELLO_LEN);
    StorePreamble(out, HELLO_MAGIC, p, 0);
    StoreHelloNumbers(out, h);
    CopyTo(out, 24, h.sram);
    CopyTo(out, 56, h.timing);
    assert out[..88] == out[..];
  }

  /** The header of build_capsule in the PQ server. */
  method StoreCapsuleHeader(out: array<byte>, p: Profile, c: Capsule)
    requires out.Length >= 32
    modifies out
    ensures out[..32] == Preamble(CAPSULE_MAGIC, p, p.SignedLen()) + CapsuleNumbers(c)
  {
    StorePreamble(out, CAPSULE_MAGIC, p, p.SignedLen());
    StoreU64(out, 8, c.deviceId);
    StoreU32(out, 16, c.bootCounter);
    StoreU64(out, 20, c.timeMs);
    StoreU32(out, 28, c.sequence);
  }

  /** build_capsule of the PQ server around its two library calls: encaps yields
      the body, sign yields the signature of the bytes before it, and either may
      fail. */
  method BuildCapsule(out: array<byte>, c: Capsule, encapsOk: bool, sign: seq<byte> -> Option<seq<byte>>)
    returns (ok: bool)
    requires out.Length == Pq.CapsuleLen() && |c.body| == Pq.BodyLen()
    modifies out
    ensures
      var signature := sign(EncodeSigned(Pq, c));
      ok <==> encapsOk && signature.Some? && |signature.value| == Pq.SignatureLen()
    ensures ok ==> out[..] == EncodeSigned(Pq, c) + sign(EncodeSigned(Pq, c)).value
  {
    Zero(out, Pq.CapsuleLen());
    StoreCapsuleHeader(out, Pq, c);
    if !encapsOk {
      return false;
    }
    CopyTo(out, 32, c.body);
    CopyTo(out, 800, c.helloHash);
    assert out[..832] == EncodeSigned(Pq, c);
    var signature := sign(out[..832]);
    if signature.None? || |signature.value| != Pq.SignatureLen() {
      return false;
    }
    CopyTo(out, 832, signature.value);
    assert out[..] == out[..832 + |signature.value|];
    ok := true;
  }

  /** The C server's parse_hello over a receive buffer, apart from the hash. */
  method ParseHelloBuffer(buf: array<byte>, len: nat) returns (r: Result<HelloFields>)
    requires len <= buf.Length
    ensures r == ParseHelloPq(buf[..len])
  {
    if len != HELLO_LEN {
      return Err(EMsgSize);
    }
    FieldOf(buf, len, 0, 4);
    FieldOf(buf, len, 6, 8);
    FieldOf(buf, len, 8, 16);
    FieldOf(buf, len, 16, 20);
    FieldOf(buf, len, 20, 24);
    if buf[..4] != HELLO_MAGIC {
      return Err(EBadMsg);
    }
    var flags := LoadU16(buf, 6);
    if buf[4] != TEB_VERSION || buf[5] != Pq.Code() || flags != 0 {
      return Err(EProtoNoSupport);
    }
    var deviceId := LoadU64(buf, 8);
    var counter := LoadU32(buf, 16);
    var uptimeMs := LoadU32(buf, 20);
    r := Ok(HelloFields(deviceId, counter, uptimeMs));
  }

  /** teb_parse_capsule over a receive buffer. */
  method ParseCapsuleBuffer(p: Profile, buf: array<byte>, len: nat) returns (r: Result<Capsule>)
    requires len <= buf.Length
    ensures r == ParseCapsule(p, buf[..len])
  {
    if len != p.CapsuleLen() {
      return Err(EMsgSize);
    }
    var n := 32 + p.BodyLen();
    FieldOf(buf, len, 0, 4);
    FieldOf(buf, len, 6, 8);
    FieldOf(buf, len, 8, 16);
    FieldOf(buf, len, 16, 20);
    FieldOf(buf, len, 20, 28);
    FieldOf(buf, len, 28, 32);
    FieldOf(buf, len, 32, n);
    FieldOf(buf, len, n, n + 32);
    if buf[..4] != CAPSULE_MAGIC {
      return Err(EBadMsg);
    }
    if buf[4] != TEB_VERSION {
      return Err(EProtoNoSupport);
    }
    if buf[5] != p.Code() {
      return Err(EProtoNoSupport);
    }
    var signedLen := LoadU16(buf, 6);
    if signedLen != p.SignedLen() {
      return Err(EBadMsg);
    }
    var deviceId := LoadU64(buf, 8);
    var bootCounter := LoadU32(buf, 16);
    var timeMs := LoadU64(buf, 20);
    var sequence := LoadU32(buf, 28);
    r := Ok(Capsule(deviceId, bootCounter, timeMs, sequence, buf[32..n], buf[n..n + 32]));
  }
}
