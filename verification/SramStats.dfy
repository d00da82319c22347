/** The SRAM experiment's statistics, as the integers over which it divides:
    they are the PUF analysis' counts, found with the loops the other way round. */
module SramStats {
  import opened Bytes
  import opened Bits
  import opened PufDistances

  /** {(capture[byte_index] >> bit) & 1 for capture in captures} */
  function Values(captures: seq<seq<byte>>, i: nat, bit: nat): set<nat>
    requires forall j :: 0 <= j < |captures| ==> i < |captures[j]|
  {
    if captures == [] then {} else {Shr(captures[0][i], bit) % 2} + Values(captures[1..], i, bit)
  }

  /** Bit `bit` of byte i, counted from the low end, in the unpacked bits. */
  lemma {:induction false} BitsOfAt(s: seq<byte>, i: nat, bit: nat)
    requires i < |s| && bit < 8
    ensures BitsOf(s)[8 * i + 7 - bit] == Shr(s[i], bit) % 2
  {
    var n := |s| - 1;
    if i == n {
      LowBitsAreShifts(s[n], 8, 7 - bit);
    } else {
      BitsOfAt(s[..n], i, bit);
    }
  }

  /** A position takes both values exactly when some captures have a one there
      and some do not. */
  lemma {:induction false} ValuesAre(captures: seq<seq<byte>>, size: nat, i: nat, bit: nat)
    requires SameSize(captures, size) && i < size && bit < 8
    ensures Values(captures, i, bit) <= {0, 1}
    ensures 1 in Values(captures, i, bit) <==> Ones(captures, 8 * i + 7 - bit) != 0
    ensures 0 in Values(captures, i, bit) <==> Ones(captures, 8 * i + 7 - bit) != |captures|
  {
    if captures != [] {
      var k := 8 * i + 7 - bit;
      BitsOfAt(captures[0], i, bit);
      ValuesAre(captures[1..], size, i, bit);
      OnesBounded(captures[1..], k);
    }
  }

  /** 1 if the position is 0 in all captures or 1 in all. */
  function StableAt(captures: seq<seq<byte>>, size: nat, k: nat): nat
    requires SameSize(captures, size) && k < 8 * size
  {
    if Ones(captures, k) == 0 || Ones(captures, k) == |captures| then 1 else 0
  }

  lemma SingletonIff(captures: seq<seq<byte>>, size: nat, i: nat, bit: nat)
    requires SameSize(captures, size) && captures != [] && i < size && bit < 8
    ensures StableAt(captures, size, 8 * i + 7 - bit) == if |Values(captures, i, bit)| == 1 then 1 else 0
  {
    ValuesAre(captures, size, i, bit);
    var v := Values(captures, i, bit);
    if 0 in v && 1 in v {
      assert v == {0, 1};
    } else if 0 in v {
      assert v == {0};
    } else if 1 in v {
      assert v == {1};
    }
  }

  /** Some capture ends before byte i. */
  predicate Ends(captures: seq<seq<byte>>, i: nat) {
    exists j :: 0 <= j < |captures| && |captures[j]| <= i
  }

  /** The captures, each cut to its first `size` bytes. */
  function Cut(captures: seq<seq<byte>>, size: nat): (c: seq<seq<byte>>)
    requires forall j :: 0 <= j < |captures| ==> size <= |captures[j]|
    ensures SameSize(c, size) && |c| == |captures|
  {
    if captures == [] then [] else [captures[0][..size]] + Cut(captures[1..], size)
  }

  lemma {:induction false} CutKeepsValues(captures: seq<seq<byte>>, size: nat, i: nat, bit: nat)
    requires (forall j :: 0 <= j < |captures| ==> size <= |captures[j]|) && i < size
    ensures Values(Cut(captures, size), i, bit) == Values(captures, i, bit)
  {
    if captures != [] {
      CutKeepsValues(captures[1..], size, i, bit);
    }
  }

  /** len(values) for one bit position; None is the IndexError of a capture that
      has ended. */
  method CountValues(captures: seq<seq<byte>>, i: nat, bit: nat) returns (n: Option<nat>)
    ensures n.None? <==> Ends(captures, i)
    ensures n.Some? ==> n.value == |Values(captures, i, bit)|
  {
    var values: set<nat> := {};
    for j := 0 to |captures|
      invariant forall k :: 0 <= k < j ==> i < |captures[k]|
      invariant !Ends(captures, i) ==> values + Values(captures[j..], i, bit) == Values(captures, i, bit)
    {
      if i >= |captures[j]| {
        return None;
      }
      assert captures[j..][1..] == captures[j + 1..];
      values := values + {Shr(captures[j][i], bit) % 2};
    }
    n := Some(|values|);
  }

  /** Every capture has all bytes of the first. */
  predicate Long(captures: seq<seq<byte>>)
    requires captures != []
  {
    forall j :: 0 <= j < |captures| ==> |captures[0]| <= |captures[j]|
  }

  /** stable_bit_fraction's numerator: bytes in order, bits from the low end. It
      raises iff a capture is shorter than the first; longer ones are cut. */
  method StableBitCount(captures: seq<seq<byte>>) returns (r: Option<nat>)
    ensures captures == [] ==> r == Some(0)
    ensures captures != [] ==> (r.Some? <==> Long(captures))
    ensures captures != [] && r.Some? ==>
      var size := |captures[0]|;
      r.value == StableBits(Cut(captures, size), size, 8 * size)
  {
    if captures == [] {
      return Some(0);
    }
    var size, stable := |captures[0]|, 0;
    for i := 0 to size
      invariant Long(captures) ==> stable == StableBits(Cut(captures, size), size, 8 * i)
      invariant forall j :: 0 <= j < |captures| ==> i <= |captures[j]|
    {
      ghost var start := stable;
      for bit := 0 to 8
        invariant Long(captures) ==>
          stable + StableBits(Cut(captures, size), size, 8 * i + 8 - bit)
          == start + StableBits(Cut(captures, size), size, 8 * i + 8)
        invariant bit > 0 ==> !Ends(captures, i)
      {
        var n := CountValues(captures, i, bit);
        if n.None? {
          return None;
        }
        if Long(captures) {
          CutKeepsValues(captures, size, i, bit);
          SingletonIff(Cut(captures, size), size, i, bit);
        }
        stable := stable + if n.value == 1 then 1 else 0;
      }
    }
    r := Some(stable);
  }

  /** hamming_fraction's numerator. */
  method DifferingBits(left: seq<byte>, right: seq<byte>) returns (differing: nat)
    ensures differing == Hamming(left, right)
    ensures |left| == |right| ==> differing == Mismatch(BitsOf(left), BitsOf(right), 8 * |left|)
  {
    differing := 0;
    var n := Min(|left|, |right|);
    for k := 0 to n
      invariant differing == Hamming(left[..k], right[..k])
    {
      assert left[..k + 1][..k] == left[..k] && right[..k + 1][..k] == right[..k];
      differing := differing + BitCount(Xor(left[k], right[k]));
    }
    HammingCuts(left, right, n, left[..n], right[..n]);
    if |left| == |right| {
      HammingIsMismatch(left, right);
    }
  }

  /** Equal captures: the stable fraction is 1 exactly when the mean pairwise
      Hamming fraction is 0, which is when all captures are the same. */
  lemma StableIffIdentical(captures: seq<seq<byte>>, size: nat)
    requires captures != [] && SameSize(captures, size)
    ensures
      StableBits(captures, size, 8 * size) == 8 * size <==> Total(DistancesOf(captures)) == 0
    ensures
      Total(DistancesOf(captures)) == 0 <==> forall j :: 0 <= j < |captures| ==> captures[j] == captures[0]
  {
    StableIffNoSpread(captures, size, 8 * size);
    DoubleCounting(captures, size);
    NoDistanceIff(captures, size);
  }

  lemma {:induction false} RowZeroIff(a: seq<byte>, rest: seq<seq<byte>>)
    requires SameSize(rest, |a|)
    ensures Total(RowDistances(a, rest)) == 0 <==> forall j :: 0 <= j < |rest| ==> rest[j] == a
  {
    if rest != [] {
      RowZeroIff(a, rest[1..]);
      HammingZeroIff(a, rest[0]);
      var d := RowDistances(a, rest);
      assert d[1..] == RowDistances(a, rest[1..]);
      assert forall j :: 1 <= j < |rest| ==> rest[j] == rest[1..][j - 1];
    }
  }

  lemma {:induction false} NoDistanceIff(captures: seq<seq<byte>>, size: nat)
    requires captures != [] && SameSize(captures, size)
    ensures
      Total(DistancesOf(captures)) == 0 <==> forall j :: 0 <= j < |captures| ==> captures[j] == captures[0]
  {
    var a, rest := captures[0], captures[1..];
    TotalConcat(RowDistances(a, rest), DistancesOf(rest));
    RowZeroIff(a, rest);
    if rest != [] {
      NoDistanceIff(rest, size);
    }
    assert forall j :: 1 <= j < |captures| ==> captures[j] == rest[j - 1];
  }
}
