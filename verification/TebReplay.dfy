/** Warm resets and replay: what the retained counter keeps apart, whatever the
    server, the network and the cryptographic libraries do. */
module TebReplay {
  import opened Bytes
  import opened TebCodec
  import opened TebClient
  import opened TebNetwork

  // ---- warm resets ----

  function Counters(boots: seq<Boot>): (r: seq<u32>)
    ensures |r| == |boots| && forall k :: 0 <= k < |r| ==> r[k] == boots[k].hello.bootCounter
  {
    if boots == [] then [] else Counters(boots[..|boots| - 1]) + [boots[|boots| - 1].hello.bootCounter]
  }

  /** From boot `from` on, every boot counts one up from the one before, and the
      retained memory holds the last. */
  ghost predicate Chained(s: System, from: nat) {
    && from < |s.boots| && s.retained == Retain(s.boots[|s.boots| - 1].hello.bootCounter)
    && Consecutive(Counters(s.boots)[from..])
  }

  ghost predicate Warm(events: seq<Event>) {
    forall i :: 0 <= i < |events| && events[i].Reset? ==> events[i].noise.None?
  }

  lemma RetainedCounts(value: u32)
    ensures NextCounter(Retain(value)) == (value + 1) % U32_LIMIT
  {
  }

  lemma StepChains(c: Crypto, id: u64, s: System, e: Event, from: nat)
    requires Chained(s, from) && (e.Reset? ==> e.noise.None?)
    ensures Chained(Step(c, id, s, e), from)
  {
    var old', new' := Counters(s.boots), Counters(Step(c, id, s, e).boots);
    if e.Reset? {
      var next := NextCounter(s.retained);
      RetainedCounts(old'[|old'| - 1]);
      ConsecutiveAppend(old'[from..], next);
      assert new' == old' + [next];
      assert new'[from..] == old'[from..] + [next];
    } else {
      assert new' == old';
    }
  }

  /** Any first boot starts a chain, whatever the memory held. */
  lemma ColdBootChains(c: Crypto, id: u64, s: System, e: Event)
    requires e.Reset?
    ensures Chained(Step(c, id, s, e), |s.boots|)
  {
    var boots := Step(c, id, s, e).boots;
    assert boots[..|boots| - 1] == s.boots;
    assert |Counters(boots)[|s.boots|..]| == 1;
  }

  lemma {:induction false} WarmRunChains(c: Crypto, id: u64, s: System, events: seq<Event>, from: nat)
    requires Chained(s, from) && Warm(events)
    ensures Chained(Run(c, id, s, events), from)
    decreases |events|
  {
    if events != [] {
      StepChains(c, id, s, events[0], from);
      assert forall i :: 0 <= i < |events[1..]| ==> events[1..][i] == events[i + 1];
      WarmRunChains(c, id, Step(c, id, s, events[0]), events[1..], from);
    }
  }

  /** Over any run of fewer than 2^32 warm resets, with the server and the network
      doing anything in between, boots have pairwise distinct counters. */
  lemma WarmCountersDistinct(c: Crypto, id: u64, s: System, events: seq<Event>, from: nat, i: nat, j: nat)
    requires Chained(s, from) && Warm(events)
    requires from <= i < j < |Run(c, id, s, events).boots| && j - from < U32_LIMIT
    ensures Run(c, id, s, events).boots[i].hello.bootCounter != Run(c, id, s, events).boots[j].hello.bootCounter
  {
    WarmRunChains(c, id, s, events, from);
    var counters := Counters(Run(c, id, s, events).boots)[from..];
    CountersRepeatIff(counters, i - from, j - from);
  }

  // ---- replay ----

  lemma ReadyIsAcceptable(c: Crypto, boots: seq<Boot>, i: nat)
    requires BootsOk(c, boots) && i < |boots| && boots[i].phase.Ready?
    ensures ParseCapsule(Pq, boots[i].phase.capsule).Ok?
    ensures Acceptable(c, Pq, EncodeHello(Pq, boots[i].hello), ParseCapsule(Pq, boots[i].phase.capsule).value.deviceId,
                       boots[i].hello.bootCounter, boots[i].phase.capsule)
  {
    BootAt(c, boots, i);
  }

  /** From any state: over at most 2^32 warm boots, one capsule is accepted in at
      most one. Nothing is assumed about signatures, hashes or the KEM; the
      counter in the capsule alone decides it. */
  lemma WarmReplayRejected(c: Crypto, id: u64, s: System, events: seq<Event>, from: nat, i: nat, j: nat)
    requires BootsOk(c, s.boots) && Chained(s, from) && Warm(events)
    requires from <= i < |Run(c, id, s, events).boots| && from <= j < |Run(c, id, s, events).boots|
    requires |Run(c, id, s, events).boots| - from <= U32_LIMIT
    requires
      var boots := Run(c, id, s, events).boots;
      boots[i].phase.Ready? && boots[j].phase.Ready? && boots[i].phase.capsule == boots[j].phase.capsule
    ensures i == j
  {
    var boots := Run(c, id, s, events).boots;
    RunKeepsBoots(c, id, s, events);
    WarmRunChains(c, id, s, events, from);
    ReadyIsAcceptable(c, boots, i);
    ReadyIsAcceptable(c, boots, j);
    var capsule, counters := boots[i].phase.capsule, Counters(boots)[from..];
    AcceptedInOneBoot(c, Pq, capsule, counters, ParseCapsule(Pq, capsule).value.deviceId,
                      i - from, EncodeHello(Pq, boots[i].hello), j - from, EncodeHello(Pq, boots[j].hello));
  }

  lemma {:induction false} RunKeepsBoots(c: Crypto, id: u64, s: System, events: seq<Event>)
    requires BootsOk(c, s.boots)
    ensures BootsOk(c, Run(c, id, s, events).boots)
    decreases |events|
  {
    if events != [] {
      match events[0] {
        case Serve(_, _, _) =>
        case Reset(_, _, _, _) => ResetKeepsBoots(c, id, s, events[0]);
        case Deliver(datagram, x) => DeliverKeepsBoots(c, s, datagram, x);
      }
      RunKeepsBoots(c, id, Step(c, id, s, events[0]), events[1..]);
    }
  }

  /** From program start: whatever happened before, from the last boot of the
      first part on, warm resets never accept one capsule twice. */
  lemma ReplayNeverAccepted(c: Crypto, id: u64, memory: Retained, earlier: seq<Event>, warm: seq<Event>, i: nat, j: nat)
    requires Warm(warm) && Run(c, id, Start(memory), earlier).boots != []
    requires
      var first := |Run(c, id, Start(memory), earlier).boots| - 1;
      var boots := Run(c, id, Run(c, id, Start(memory), earlier), warm).boots;
      && first <= i < |boots| && first <= j < |boots| && |boots| - first <= U32_LIMIT
      && boots[i].phase.Ready? && boots[j].phase.Ready? && boots[i].phase.capsule == boots[j].phase.capsule
    ensures i == j
  {
    var s := Run(c, id, Start(memory), earlier);
    RunKeepsBoots(c, id, Start(memory), earlier);
    RunRetainsLast(c, id, Start(memory), earlier);
    assert Consecutive(Counters(s.boots)[|s.boots| - 1..]);
    WarmReplayRejected(c, id, s, warm, |s.boots| - 1, i, j);
  }

  /** The retained memory holds the counter of the last boot. */
  ghost predicate RetainsLast(s: System) {
    s.boots != [] ==> s.retained == Retain(s.boots[|s.boots| - 1].hello.bootCounter)
  }

  lemma {:induction false} RunRetainsLast(c: Crypto, id: u64, s: System, events: seq<Event>)
    requires RetainsLast(s)
    ensures RetainsLast(Run(c, id, s, events))
    decreases |events|
  {
    if events != [] {
      RunRetainsLast(c, id, Step(c, id, s, events[0]), events[1..]);
    }
  }
}
