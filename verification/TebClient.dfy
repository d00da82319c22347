/** The capsule client: the retained boot counter and the accept pipeline that
    ends in one credit to the entropy pool. */
module TebClient {
  import opened Bits
  import opened Bytes
  import opened TebCodec

  const COUNTER_MAGIC: u32 := 0x54454243
  const CREDIT_BITS := 128

  // ---- the retained counter ----

  datatype Retained = Retained(magic: u32, value: u32, check: u32)

  /** value ^ TEB_COUNTER_MAGIC */
  function CheckOf(value: u32): u32 {
    PowerValues();
    XorBelow(value, COUNTER_MAGIC, 32);
    Xor(value, COUNTER_MAGIC)
  }

  function Retain(value: u32): Retained {
    Retained(COUNTER_MAGIC, value, CheckOf(value))
  }

  function NextCounter(r: Retained): u32 {
    if r.magic != COUNTER_MAGIC || r.check != CheckOf(r.value) then 1 else (r.value + 1) % U32_LIMIT
  }

  /** "TEBC" marks the structure, and the check word is the value with it mixed in:
      only then does the count go on, else it restarts at 1. */
  lemma CounterIs(r: Retained, v: u32)
    ensures r.magic == 0x54454243 && r.check == Xor(r.value, 0x54454243) ==>
      NextCounter(r) == (r.value + 1) % 0x1_0000_0000
    ensures r.magic != 0x54454243 || r.check != Xor(r.value, 0x54454243) ==> NextCounter(r) == 1
    ensures Retain(v) == Retained(0x54454243, v, Xor(v, 0x54454243))
  {
    assert CheckOf(r.value) == Xor(r.value, 0x54454243);
  }

  /** The noinit structure that survives a warm reset. */
  class RetainedCounter {
    var magic: u32
    var value: u32
    var check: u32

    function State(): Retained
      reads this
    {
      Retained(magic, value, check)
    }

    /** next_boot_counter */
    method NextBootCounter() returns (v: u32)
      modifies this
      ensures v == NextCounter(old(State())) && State() == Retain(v)
    {
      if magic != COUNTER_MAGIC || check != CheckOf(value) {
        v := 1;
      } else {
        v := (value + 1) % U32_LIMIT;
      }
      magic := COUNTER_MAGIC;
      value := v;
      check := CheckOf(v);
    }

    /** n consecutive warm boots: each counts one up from the last, wrapping. */
    method WarmBoots(n: nat) returns (counters: seq<u32>)
      modifies this
      ensures |counters| == n
      ensures Consecutive(counters)
      ensures n > 0 ==> State() == Retain(counters[n - 1])
    {
      counters := [];
      for i := 0 to n
        invariant |counters| == i
        invariant Consecutive(counters)
        invariant i > 0 ==> State() == Retain(counters[i - 1])
      {
        var v := NextBootCounter();
        if i > 0 {
          ConsecutiveAppend(counters, v);
        }
        counters := counters + [v];
      }
    }
  }

  /** Each counter is one up from the one before, modulo 2^32. */
  predicate Consecutive(counters: seq<u32>) {
    forall k :: 0 < k < |counters| ==> counters[k] == (counters[k - 1] + 1) % U32_LIMIT
  }

  lemma ConsecutiveAppend(counters: seq<u32>, next: u32)
    requires Consecutive(counters) && counters != []
    requires next == (counters[|counters| - 1] + 1) % U32_LIMIT
    ensures Consecutive(counters + [next])
  {
  }

  lemma {:induction false} CountersAdvance(counters: seq<u32>, i: nat, j: nat)
    requires i <= j < |counters| && Consecutive(counters)
    ensures counters[j] == (counters[i] + (j - i)) % U32_LIMIT
  {
    if i < j {
      CountersAdvance(counters, i, j - 1);
    }
  }

  /** Two warm boots have the same counter iff they are a multiple of 2^32 boots
      apart: fewer than 2^32 warm boots have pairwise distinct counters. */
  lemma CountersRepeatIff(counters: seq<u32>, i: nat, j: nat)
    requires i <= j < |counters| && Consecutive(counters)
    ensures counters[i] == counters[j] <==> (j - i) % U32_LIMIT == 0
  {
    CountersAdvance(counters, i, j);
  }

  // ---- libraries ----

  /** The cryptographic libraries, as functions. Randomness is an argument; HKDF takes
      key material, a salt and an info text. */
  datatype Crypto = Crypto(
    hash: seq<byte> -> hash32,
    verify: (seq<byte>, seq<byte>) -> bool,
    sign: (seq<byte>, nat) -> Option<seq<byte>>,
    encaps: nat -> Option<(seq<byte>, hash32)>,
    decaps: seq<byte> -> hash32,
    hkdf: (seq<byte>, seq<byte>, string) -> hash32)

  /** Return codes of library calls that fail for reasons of their own. */
  datatype Faults = Faults(hello: int, verify: int, decaps: int, body: int, hkdf: int, add: int)

  datatype Puf = Puf(sramSecret: hash32, timingSecret: hash32, sramCommitment: hash32, timingCommitment: hash32)

  /** One call of entropy_add_entropy. */
  datatype Credit = Credit(seed: hash32, bits: nat)

  class EntropyPool {
    var credits: seq<Credit>

    /** The call is made whether or not the driver reports success. */
    method AddEntropy(seed: hash32, bits: nat, code: int) returns (ret: int)
      modifies this
      ensures credits == old(credits) + [Credit(seed, bits)] && ret == code
    {
      credits := credits + [Credit(seed, bits)];
      ret := code;
    }
  }

  // ---- accept_capsule ----

  /** What makes a capsule acceptable, apart from library failures. */
  predicate Acceptable(c: Crypto, p: Profile, hello: seq<byte>, id: u64, counter: u32, capsule: seq<byte>) {
    && ParseCapsule(p, capsule).Ok?
    && var f := ParseCapsule(p, capsule).value;
    && f.deviceId == id && f.bootCounter == counter
    && f.helloHash == c.hash(hello)
    && c.verify(capsule[..p.SignedLen()], capsule[p.SignedLen()..])
  }

  /** A step that must succeed, and the code returned when it does not. */
  datatype Check = Check(ok: bool, error: Error)

  /** The code of the first step that fails. */
  function FirstError(checks: seq<Check>): Option<Error> {
    if checks == [] then None
    else if !checks[0].ok then Some(checks[0].error)
    else FirstError(checks[1..])
  }

  /** The checks of a parsed capsule, in order. */
  function CapsuleChecks(c: Crypto, p: Profile, hello: seq<byte>, fields: Hello, capsule: seq<byte>, x: Faults)
    : seq<Check>
    requires ParseCapsule(p, capsule).Ok?
  {
    var f := ParseCapsule(p, capsule).value;
    [Check(f.deviceId == fields.deviceId && f.bootCounter == fields.bootCounter, EAccess),
     Check(x.hello == 0, Other(x.hello)),
     Check(f.helloHash == c.hash(hello), EAccess),
     Check(x.verify == 0, Other(x.verify)),
     Check(c.verify(capsule[..p.SignedLen()], capsule[p.SignedLen()..]), EAccess)]
  }

  /** The library calls from the secret to the pool, in order. */
  function SeedChecks(p: Profile, x: Faults): seq<Check> {
    [Check(p.Ed25519? || x.decaps == 0, Other(x.decaps)),
     Check(x.body == 0, Other(x.body)),
     Check(x.hkdf == 0, Other(x.hkdf)),
     Check(x.add == 0, Other(x.add))]
  }

  lemma FailsAt(checks: seq<Check>, k: nat)
    requires k <= |checks| && forall i :: 0 <= i < k ==> checks[i].ok
    ensures FirstError(checks) == FirstError(checks[k..])
    decreases k
  {
    if k > 0 {
      assert checks[1..][k - 1..] == checks[k..];
      FailsAt(checks[1..], k - 1);
    } else {
      assert checks[0..] == checks;
    }
  }

  lemma FirstFailure(checks: seq<Check>, k: nat)
    requires k < |checks| && (forall i :: 0 <= i < k ==> checks[i].ok) && !checks[k].ok
    ensures FirstError(checks) == Some(checks[k].error)
  {
    FailsAt(checks, k);
  }

  lemma NoFailure(checks: seq<Check>)
    requires forall i :: 0 <= i < |checks| ==> checks[i].ok
    ensures FirstError(checks) == None
  {
    FailsAt(checks, |checks|);
  }

  lemma {:induction false} FirstErrorConcat(a: seq<Check>, b: seq<Check>)
    ensures FirstError(a + b) == if FirstError(a).Some? then FirstError(a) else FirstError(b)
  {
    if a == [] {
      assert a + b == b;
    } else {
      assert (a + b)[1..] == a[1..] + b;
      FirstErrorConcat(a[1..], b);
    }
  }

  predicate NoFaultBeforeCredit(p: Profile, x: Faults) {
    x.hello == 0 && x.verify == 0 && (p.Pq? ==> x.decaps == 0) && x.body == 0 && x.hkdf == 0
  }

  /** The memcpy steps that lay out ikm and salt. */
  method FillInputs(puf: Puf, secret: hash32, bodyHash: hash32, helloHash: hash32)
    returns (ikm: array<byte>, salt: array<byte>)
    ensures fresh(ikm) && fresh(salt)
    ensures ikm[..] == puf.sramSecret + puf.timingSecret + secret && salt[..] == bodyHash + helloHash
  {
    ikm, salt := new byte[96], new byte[64];
    CopyTo(ikm, 0, puf.sramSecret);
    CopyTo(ikm, 32, puf.timingSecret);
    CopyTo(ikm, 64, secret);
    assert ikm[..] == ikm[..64 + |secret|];
    CopyTo(salt, 0, bodyHash);
    CopyTo(salt, 32, helloHash);
    assert salt[..] == salt[..32 + |helloHash|];
  }

  /** accept_capsule up to the verified signature. */
  method CheckCapsule(c: Crypto, p: Profile, hello: seq<byte>, fields: Hello, capsule: array<byte>, x: Faults)
    returns (r: Result<Capsule>)
    requires capsule.Length == p.CapsuleLen()
    ensures ParseCapsule(p, capsule[..]).Err? ==> r == Err(ParseCapsule(p, capsule[..]).error)
    ensures ParseCapsule(p, capsule[..]).Ok? ==>
      match FirstError(CapsuleChecks(c, p, hello, fields, capsule[..], x))
      case None => r == ParseCapsule(p, capsule[..])
      case Some(e) => r == Err(e)
  {
    assert capsule[..p.CapsuleLen()] == capsule[..];
    r := ParseCapsuleBuffer(p, capsule, p.CapsuleLen());
    if r.Err? {
      return;
    }
    var f := r.value;
    ghost var checks := CapsuleChecks(c, p, hello, fields, capsule[..], x);
    if f.deviceId != fields.deviceId || f.bootCounter != fields.bootCounter {
      FirstFailure(checks, 0);
      return Err(EAccess);
    }
    if x.hello != 0 {
      FirstFailure(checks, 1);
      return Err(Other(x.hello));
    }
    if c.hash(hello) != f.helloHash {
      FirstFailure(checks, 2);
      return Err(EAccess);
    }
    if x.verify != 0 {
      FirstFailure(checks, 3);
      return Err(Other(x.verify));
    }
    if !c.verify(capsule[..p.SignedLen()], capsule[p.SignedLen()..]) {
      FirstFailure(checks, 4);
      return Err(EAccess);
    }
    NoFailure(checks);
  }

  /** accept_capsule from the secret to the pool. */
  method CreditSeed(c: Crypto, p: Profile, pool: EntropyPool, puf: Puf, f: Capsule, x: Faults)
    returns (e: Option<Error>)
    requires |f.body| == p.BodyLen()
    modifies pool
    ensures e == FirstError(SeedChecks(p, x))
    ensures !(x.body == 0 && x.hkdf == 0 && (p.Pq? ==> x.decaps == 0)) ==> pool.credits == old(pool.credits)
    ensures x.body == 0 && x.hkdf == 0 && p.Pq? && x.decaps == 0 ==>
      pool.credits == old(pool.credits)
        + [Credit(c.hkdf(puf.sramSecret + puf.timingSecret + c.decaps(f.body), c.hash(f.body) + f.helloHash,
                         "TEB-PQ-MLKEM512-MLDSA44-v1"), 128)]
    ensures x.body == 0 && x.hkdf == 0 && p.Ed25519? ==>
      pool.credits == old(pool.credits)
        + [Credit(c.hkdf(puf.sramSecret + puf.timingSecret + f.body, c.hash(f.body) + f.helloHash,
                         "TEB-PUF-BEACON-v1"), 128)]
  {
    ghost var checks := SeedChecks(p, x);
    var secret: hash32;
    if p.Pq? {
      if x.decaps != 0 {
        FirstFailure(checks, 0);
        return Some(Other(x.decaps));
      }
      secret := c.decaps(f.body);
    } else {
      secret := f.body;
    }
    if x.body != 0 {
      FirstFailure(checks, 1);
      return Some(Other(x.body));
    }
    var bodyHash := c.hash(f.body);
    var ikm, salt := FillInputs(puf, secret, bodyHash, f.helloHash);
    if x.hkdf != 0 {
      FirstFailure(checks, 2);
      return Some(Other(x.hkdf));
    }
    var info := if p.Ed25519? then "TEB-PUF-BEACON-v1" else "TEB-PQ-MLKEM512-MLDSA44-v1";
    var seed := c.hkdf(ikm[..], salt[..], info);
    var ret := pool.AddEntropy(seed, CREDIT_BITS, x.add);
    if ret != 0 {
      FirstFailure(checks, 3);
      return Some(Other(ret));
    }
    NoFailure(checks);
    e := None;
  }

  lemma ChecksMean(c: Crypto, p: Profile, hello: seq<byte>, fields: Hello, capsule: seq<byte>, x: Faults)
    requires ParseCapsule(p, capsule).Ok?
    ensures FirstError(CapsuleChecks(c, p, hello, fields, capsule, x)) == None <==>
      Acceptable(c, p, hello, fields.deviceId, fields.bootCounter, capsule) && x.hello == 0 && x.verify == 0
    ensures
      x.hello == 0 && x.verify == 0 && !Acceptable(c, p, hello, fields.deviceId, fields.bootCounter, capsule) ==>
        FirstError(CapsuleChecks(c, p, hello, fields, capsule, x)) == Some(EAccess)
  {
    var checks := CapsuleChecks(c, p, hello, fields, capsule, x);
    if !checks[0].ok {
      FirstFailure(checks, 0);
    } else if !checks[1].ok {
      FirstFailure(checks, 1);
    } else if !checks[2].ok {
      FirstFailure(checks, 2);
    } else if !checks[3].ok {
      FirstFailure(checks, 3);
    } else if !checks[4].ok {
      FirstFailure(checks, 4);
    } else {
      NoFailure(checks);
    }
  }

  lemma SeedChecksMean(p: Profile, x: Faults)
    ensures FirstError(SeedChecks(p, x)) == None <==>
      (p.Pq? ==> x.decaps == 0) && x.body == 0 && x.hkdf == 0 && x.add == 0
  {
    var checks := SeedChecks(p, x);
    if !checks[0].ok {
      FirstFailure(checks, 0);
    } else if !checks[1].ok {
      FirstFailure(checks, 1);
    } else if !checks[2].ok {
      FirstFailure(checks, 2);
    } else if !checks[3].ok {
      FirstFailure(checks, 3);
    } else {
      NoFailure(checks);
    }
  }

  /** accept_capsule. The pool gets exactly one call, of 128 bits, iff the capsule
      is acceptable and every library call before it succeeded; its seed is
      derived from both PUF secrets and the decapsulated secret, or the beacon,
      salted with the hashes of the capsule's body and of the hello. The capsule is
      accepted iff that call succeeds too. The code returned is that of the first
      step that fails. */
  method AcceptCapsule(c: Crypto, p: Profile, pool: EntropyPool, hello: seq<byte>, fields: Hello, puf: Puf,
                       capsule: array<byte>, x: Faults)
    returns (r: Result<Capsule>)
    requires capsule.Length == p.CapsuleLen()
    modifies pool
    ensures
      var good :=
        Acceptable(c, p, hello, fields.deviceId, fields.bootCounter, capsule[..]) && NoFaultBeforeCredit(p, x);
      && (!good ==> pool.credits == old(pool.credits) && r.Err?)
      && (ParseCapsule(p, capsule[..]).Err? ==> r == Err(ParseCapsule(p, capsule[..]).error))
      && (ParseCapsule(p, capsule[..]).Ok? && NoFaultBeforeCredit(p, x) && !good ==> r == Err(EAccess))
      && (good ==>
           var f := ParseCapsule(p, capsule[..]).value;
           && (p.Pq? ==>
                 pool.credits == old(pool.credits)
                   + [Credit(c.hkdf(puf.sramSecret + puf.timingSecret + c.decaps(f.body),
                                    c.hash(f.body) + c.hash(hello), "TEB-PQ-MLKEM512-MLDSA44-v1"), 128)])
           && (p.Ed25519? ==>
                 pool.credits == old(pool.credits)
                   + [Credit(c.hkdf(puf.sramSecret + puf.timingSecret + f.body,
                                    c.hash(f.body) + c.hash(hello), "TEB-PUF-BEACON-v1"), 128)])
           && (r.Ok? <==> x.add == 0) && (r.Ok? ==> r.value == f))
    ensures ParseCapsule(p, capsule[..]).Ok? ==>
      var checks := CapsuleChecks(c, p, hello, fields, capsule[..], x) + SeedChecks(p, x);
      FirstError(checks) == if r.Ok? then None else Some(r.error)
  {
    r := CheckCapsule(c, p, hello, fields, capsule, x);
    if ParseCapsule(p, capsule[..]).Ok? {
      ChecksMean(c, p, hello, fields, capsule[..], x);
      SeedChecksMean(p, x);
      FirstErrorConcat(CapsuleChecks(c, p, hello, fields, capsule[..], x), SeedChecks(p, x));
    }
    if r.Err? {
      return;
    }
    var e := CreditSeed(c, p, pool, puf, r.value, x);
    if e.Some? {
      r := Err(e.value);
    }
  }

  /** The hash does not collide on these two strings. */
  ghost predicate NoCollision(c: Crypto, a: seq<byte>, b: seq<byte>) {
    c.hash(a) == c.hash(b) ==> a == b
  }

  /** A capsule acceptable for two hellos is bound to one hello: the same device,
      counter, uptime and commitments. Replay into a later boot needs all of
      them to recur. */
  lemma AcceptedBindsHello(c: Crypto, p: Profile, capsule: seq<byte>, h1: Hello, h2: Hello)
    requires NoCollision(c, EncodeHello(p, h1), EncodeHello(p, h2))
    requires Acceptable(c, p, EncodeHello(p, h1), h1.deviceId, h1.bootCounter, capsule)
    requires Acceptable(c, p, EncodeHello(p, h2), h2.deviceId, h2.bootCounter, capsule)
    ensures h1 == h2
  {
    assert EncodeHello(p, h1) == EncodeHello(p, h2);
    HelloReadsBack(p, h1);
    HelloReadsBack(p, h2);
  }

  /** Among at most 2^32 warm boots, one capsule is acceptable in at most one. */
  lemma AcceptedInOneBoot(c: Crypto, p: Profile, capsule: seq<byte>, counters: seq<u32>, id: u64,
                          i: nat, hello1: seq<byte>, j: nat, hello2: seq<byte>)
    requires i < |counters| && j < |counters| && |counters| <= U32_LIMIT && Consecutive(counters)
    requires Acceptable(c, p, hello1, id, counters[i], capsule)
    requires Acceptable(c, p, hello2, id, counters[j], capsule)
    ensures i == j
  {
    if i < j {
      CountersRepeatIff(counters, i, j);
    } else {
      CountersRepeatIff(counters, j, i);
    }
  }
}
